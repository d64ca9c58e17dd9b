# Trace densification of the G-code simulator, in Dafny

The G-code simulator records the tool path as a list of trace nodes. Each
node is a planar position (`x`, `y`, in millimetres), a feed rate and a
timestamp. Before plotting, `interpolate_trace_nodes` densifies the list.
Each segment between consecutive nodes that is longer than `max_distance`
is cut into `ceil(distance / max_distance)` equal parts. The interior cut
points are inserted as new nodes, and each of the four fields is
interpolated linearly.

This project models that routine and proves what its output is:

- `TraceNodes` holds the node datatype, the squared planar distance and the
  linear interpolation of all four fields.
- `SegmentCount` holds the part count `ceil(d / m)` for a segment of length
  `d > 0`. It is computed without a square root, as the least positive `n`
  with `(n*m)^2 >= d^2`. At `d == 0` that count is 1, not `ceil(0 / m) = 0`.
  The routine only asks for the count when `d > m`, so this does not matter.
- `Emission` is the bookkeeping of a left-to-right append pass. It states
  what has been emitted and where each input node lands. It is generic in
  what each pair of nodes appends.
- `Resampling` holds the reference definition `Resample` and its
  properties:
  - every input node is kept, in order;
  - the first and last nodes are kept;
  - exactly the interpolated nodes are inserted;
  - the output length is one plus the sum of the per-segment counts;
  - consecutive output nodes are at most `m` apart;
  - a trace is a fixpoint exactly when it is already spaced;
  - resampling is idempotent.
- `Viz` holds `InterpolateTraceNodes`, written with the Python routine's nested
  loops. It is proved equal to `Resample`.
- `Scenarios` holds concrete traces worked through the definition.

Numbers are `real`. The test `distance <= max_distance` is modelled as
`dx*dx + dy*dy <= max_distance^2`. That is the same test for
`max_distance > 0` (`SegmentCount.CeilingOfRatio`). `max_distance > 0` is a
precondition.

## Model

| member | source | states |
|---|---|---|
| Viz.InterpolateTraceNodes | src/gcode_simulator/viz.py:87-145 | The nested-loop routine returns exactly `Resample` of its input. Its output is spaced within `maxDistance`, keeps the first and last nodes, and is never shorter than the input. A trace of fewer than two nodes comes back unchanged. |
| Viz.AppendSegment | src/gcode_simulator/viz.py:105-143 | One pass of the outer loop appends exactly what the segment contributes: `Count` nodes, the last of which is the end node. |
| SegmentCount.CeilSegments | src/gcode_simulator/viz.py:122 | The number of parts is the least positive `n` whose `n` parts are each within `m`, and it is the same as `Segments`. |
| SegmentCount.Segments | src/gcode_simulator/viz.py:122 | The part count is at least 1 and covers the segment. No smaller positive count covers it. It is at least 2 when the segment is longer than `m`. |
| SegmentCount.SegmentsIsLeast | src/gcode_simulator/viz.py:122 | A positive count covers the segment exactly when it is at least `Segments`. |
| SegmentCount.CeilingOfRatio | src/gcode_simulator/viz.py:111-122 | For true length `d`, `d <= m` holds exactly when `d^2 <= m^2`. Also, `Segments * m >= d`, and when `d > 0`, `(Segments - 1) * m < d`. So for every `d > 0` the count is `ceil(d / m)`. |
| TraceNodes.SqDist | src/gcode_simulator/viz.py:109-111 | The squared distance is non-negative, and it is zero between nodes at the same position. |
| TraceNodes.Lerp | src/gcode_simulator/viz.py:126-139 | Every field of the interpolated node is the convex combination `(1-f)*start + f*end`. Fraction 0 gives the start node and fraction 1 gives the end node. |
| TraceNodes.LerpGap | src/gcode_simulator/viz.py:126-132 | Two interpolants whose fractions differ by `g` are `g^2` times the segment's squared length apart. |
| Resampling.Short | src/gcode_simulator/viz.py:109-117 | The test `distance <= max_distance`, in squared form: `dx*dx + dy*dy <= m*m`. Two nodes at the same position always pass it. `SegmentCount.CeilingOfRatio` shows the squared form agrees with the source's test. |
| Resampling.Count | src/gcode_simulator/viz.py:116-125 | A segment contributes one node exactly when it is within `m`; otherwise it contributes more. |
| Resampling.Interior | src/gcode_simulator/viz.py:125-140 | The inner loop's output from index `j` on has `n - j` nodes: one per remaining `j` in `range(j, n)`. |
| Resampling.InteriorNodes | src/gcode_simulator/viz.py:125-140 | The `i`-th interior node produced from index `j` is the interpolation at `(j+i)/n`. |
| Resampling.Segment | src/gcode_simulator/viz.py:116-143 | What one pass of the loop body appends: `Count` nodes, the last of which is the end node. |
| Resampling.SegmentInterpolates | src/gcode_simulator/viz.py:116-143 | The `j`-th node a segment appends is the interpolation at `(j+1)/n`, with `n` the segment's count, so the last is the end node. |
| Resampling.Resample | src/gcode_simulator/viz.py:99-102 | Fewer than two nodes are returned unchanged. Otherwise the output is at least as long as the input and starts and ends with the input's first and last nodes. |
| Resampling.Position | src/gcode_simulator/viz.py:102-143 | Every input node occurs in the output, unchanged. The first input node is output first and the last is output last. |
| Resampling.SegmentBetween | src/gcode_simulator/viz.py:104-143 | Between consecutive input nodes `k-1` and `k`, the output holds exactly segment `k`'s contribution, and the two nodes land `Count` apart. |
| Resampling.PositionsIncrease | src/gcode_simulator/viz.py:104 | Input nodes appear in the output in their input order. |
| Resampling.InsertedNodes | src/gcode_simulator/viz.py:125-143 | The `j`-th node after input node `k-1` is the interpolation at `(j+1)/n` between nodes `k-1` and `k`, for `n` the segment's count. |
| Resampling.ResampleLength | src/gcode_simulator/viz.py:102-143 | The output length is one plus the sum of the segments' counts. |
| Resampling.SegmentSpaced | src/gcode_simulator/viz.py:116-143 | A segment's start followed by its contribution is spaced within `m`. |
| Resampling.ResampleSpaced | src/gcode_simulator/viz.py:89-90 | No two consecutive output nodes are more than `m` apart. |
| Resampling.SpacedIsFixpoint | src/gcode_simulator/viz.py:116-119 | A trace whose gaps are all within `m` is returned unchanged. |
| Resampling.ResampleFixpointIff | src/gcode_simulator/viz.py:116-125 | Resampling leaves a trace unchanged if and only if all of its gaps are already within `m`. |
| Resampling.ResampleIdempotent | src/gcode_simulator/viz.py:87-145 | Resampling the output again with the same spacing changes nothing. |
| Emission.Emit | src/gcode_simulator/viz.py:102-143 | The output list the outer loop builds, after `k` input nodes have been consumed. It is never empty and always starts with `nodes[0]`. |
| Emission.EmitPrefix | src/gcode_simulator/viz.py:102-143 | The output list is only ever appended to. What was emitted after `k` nodes is a prefix of what was emitted after `j >= k`. |
| Emission.EmitEnds | src/gcode_simulator/viz.py:118-143 | After consuming `k` nodes, the output has at least `k` nodes and ends with node `k-1`. |
| Scenarios.LongMoveIsQuartered | src/gcode_simulator/viz.py:122-143 | A 10 mm move at spacing 3 is cut into 4 parts. Nodes are inserted at 2.5, 5 and 7.5 mm, with feed and time interpolated alike. |
| Scenarios.BoundaryMoveIsKept | src/gcode_simulator/viz.py:117-118 | A move exactly as long as the spacing is kept whole, because the comparison is inclusive. |
| Scenarios.SlightlyLongMoveIsHalved | src/gcode_simulator/viz.py:122-143 | A 4 mm move at spacing 3 gets a single midpoint. |
| Scenarios.DwellIsKept | src/gcode_simulator/viz.py:116-118 | Two nodes at the same position, whatever their feed and time, are both kept, with nothing inserted between them. |

## Left out

- `plot_trace` (`viz.py:7-84`) renders with matplotlib. It only calls the
  densification, so it is not modelled.
- Floating point is not modelled. The model uses exact reals.
  - `math.sqrt`, the division and `math.ceil` are exact here. In floats,
    rounding in `dx*dx + dy*dy` and in `math.sqrt` can make
    `distance <= max_distance` hold for a segment whose true length is
    slightly larger. That segment is then kept whole.
  - For `k >= 2`, a distance just above `k * max_distance` can have
    `distance / max_distance` round down to `k`. The segment is then cut
    into `k` parts, each slightly longer than `max_distance`.
  - NaN and infinite coordinates are also left out.
- `max_distance <= 0` is excluded by a precondition. With zero, the routine
  divides by zero on the first non-zero move. With a negative value, every
  segment appends only its end node.
- The default `max_distance = 1.0` is not modelled. The model always takes
  the spacing as an argument.
- List identity is not modelled. For fewer than two nodes the routine returns
  the very list it was given; the model returns an equal sequence.
- The `TraceNode` class of the `gcode_simulator` package is not part of this
  model. Only its four fields are used, as a datatype.
- TraceNodes.SqDist: states that nodes at the same position are at squared
  distance zero, not the converse.
- Viz.InterpolateTraceNodes: computes the squared distance and compares it
  with `max_distance^2`, instead of taking a square root. It counts parts
  upward (`SegmentCount.CeilSegments`) instead of calling `math.ceil`. Both
  agree with the routine's values for `max_distance > 0`
  (`SegmentCount.CeilingOfRatio`).
