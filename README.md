# Shape-model loader and rotation sweep of flybys/render.py

This project models the two parts of `flybys/render.py` that carry logic of
their own: the loader of a shape-model file (`load_shape_model`) and the loop
of `create_animation` that turns the camera one degree per step and collects
one captured frame per step.

- `loader.dfy`, module `Loader`. A shape-model file is a table of rows with
  the columns TYPE, X1, X2, X3. The input is that table, already tokenised,
  as a `seq<Record>` whose numeric columns are reals. Rows tagged `v` become
  vertices with their three fields unchanged. Rows tagged `f` become faces:
  each field has one subtracted and is then cast to an integer, truncating
  toward zero (`Trunc`). Within the range where the source's float64
  arithmetic and its fixed-width integer cast are exact, this is the field
  minus one for whole-number fields. Every other
  row is dropped. Both lists are one generic filter-and-convert, `Select`,
  so the order, concatenation and origin lemmas are proved once for both.
- `animation.dfy`, module `Animation`. The renderer's axes are a class
  `Axes` whose `camera` and lights the code assigns in place. `Configure`
  sets the field of view, zoom and lights. `Sweep` is the loop. It starts
  from an empty list; for each step it sets the azimuth, captures a frame and
  appends it. Drawing, grabbing and the conversion to 8-bit samples are the
  parameter `capture`, a function from the scene to a frame. `SweepFrames`
  is the specification of the loop, and the lemmas about it give the number
  of frames, the azimuth of each frame and their order.

What the code does at its edges, as the model states it:
- The code does not validate face fields: out-of-range, zero and negative
  values are decremented and stored all the same (`Loader.NoValidation`).
- The code assigns `float(step)` to the camera's azimuth for every step,
  without reducing it modulo 360. What the camera keeps after that
  assignment is up to the rendering library (see "## Left out").
- `range(steps)` with `steps <= 0` is empty. The sweep then captures no frame
  and leaves the camera alone. When no `steps` is given, it is 360.

## Model

| member | source | states |
|---|---|---|
| Loader.Trunc | flybys/render.py:72 | the integer cast drops the fractional part toward zero: within one of the input, never larger in magnitude, and equal to a whole-number input (the source agrees within the range of its fixed-width integer type) |
| Loader.ToIndex | flybys/render.py:71-72 | a face field minus one, cast: exactly `x - 1` for a whole-number field (within the ranges listed under "## Left out"), and a non-negative result no larger than `x - 1` for a field of at least 1 |
| Loader.Count | flybys/render.py:70-72 | the number of rows with a given tag is at most the number of rows |
| Loader.FaceOf | flybys/render.py:71-72 | one face per row, each whole-number field stored as that field minus one |
| Loader.Load | flybys/render.py:44-74 | the vertex list has one entry per `v` row and the face list one per `f` row; `VertexRow`, `FaceRow`, `SelectOrigin` and `SelectOrder` give which entries, in file order |
| Loader.CountAppend | flybys/render.py:70-72 | counting rows by tag distributes over concatenation of row sequences |
| Loader.Select | flybys/render.py:70-72 | the rows with a given TYPE, converted, give exactly one entry per such row |
| Loader.SelectAppend | flybys/render.py:70-72 | selecting rows by tag distributes over concatenation of row sequences |
| Loader.SelectAt | flybys/render.py:70-72 | every row with the tag appears, converted, in the selected list, at the position given by the number of such rows before it |
| Loader.SelectOrder | flybys/render.py:70-72 | of two selected rows the earlier one in the file takes the earlier position: file order is kept |
| Loader.SelectOrigin | flybys/render.py:70-72 | every entry of the selected list is the conversion of a row with the tag, the one of that rank: nothing else enters the list |
| Loader.VertexRow | flybys/render.py:70 | each `v` row is stored as the vertex at its rank, with its three fields unchanged |
| Loader.FaceRow | flybys/render.py:71-72 | each `f` row is stored as the face at its rank; each whole-number field is stored as the field minus one |
| Loader.FaceExample | flybys/render.py:71-72 | the row `f 1 2 3` is stored as the face (0, 1, 2) |
| Loader.NoValidation | flybys/render.py:71-72 | the loader rejects nothing: `f 0 -4 7` in a file without vertices is stored as (-1, -5, 6) |
| Loader.LoadSize | flybys/render.py:70-72 | the vertex and face lists together are no longer than the file, and exactly as long if and only if every row is tagged `v` or `f` |
| Loader.LoadAppend | flybys/render.py:70-72 | loading the concatenation of two files gives the concatenated vertex lists and the concatenated face lists |
| Loader.IgnoredRow | flybys/render.py:70-72 | a row with any other tag and three numeric fields, inserted anywhere, changes neither list |
| Loader.FaceIndicesInRange | flybys/render.py:71-72 | if every `f` field lies in [1, number of vertices], every stored face index lies in [0, number of vertices) |
| Animation.SweepLength | flybys/render.py:174-182 | a sweep of `steps` steps collects exactly `steps` frames (none when `steps` is not positive) |
| Animation.SweepAt | flybys/render.py:177-182 | frame `k` is the one captured with the azimuth set to `k` degrees and every other camera and light setting as before the sweep |
| Animation.SweepPrefix | flybys/render.py:174-182 | a longer sweep extends a shorter one: frames are only appended, in step order |
| Animation.SweepAzimuths | flybys/render.py:177-178 | the azimuths of the captured frames are 0, 1, ..., steps-1, strictly increasing |
| Animation.Axes.Configure | flybys/render.py:165-171 | set-up sets the field of view to 60 and the zoom to 0.1, switches the default light off and the second light on at (5, 5, 5, 0); azimuth and elevation are untouched |
| Animation.Axes.Sweep | flybys/render.py:174-182 | with `steps` 360 unless given, the loop returns the frames of the specification `SweepFrames` from the scene before the loop; the lights and every camera setting but the azimuth are unchanged, and, with the azimuth setter taken as a plain store, the camera is left at azimuth `steps - 1` |
| Animation.CreateAnimation | flybys/render.py:122-185 | with `steps` 360 unless given, the list handed to the encoder has `steps` frames, and frame `k` is captured with the configured camera at azimuth `k` and the configured lights |

## Left out

- Reading the file and tokenising its text (the CSV reader with whitespace
  delimiters), including float parsing, padding of short rows with NaN, a
  missing file and unparsable text: the model starts from the tokenised rows.
- Every modelled row carries three numbers after its tag. In the source one
  non-numeric field in any row (an OBJ line such as `o Phobos`, `usemtl rock`
  or `f 1/1/1 2/2/2 3/3/3`) makes the reader keep that whole column as text;
  the vertices then come back with text fields, and subtracting one from the
  face fields at flybys/render.py:71 fails once any `f` row exists. The model
  covers only files whose rows are all numeric.
- Animation.Axes.Sweep: the assignment to the camera's azimuth goes through the
  rendering library's camera property, which is not part of this model; it
  is modelled as a plain store. The frames do not depend on this, since
  `capture` is arbitrary. If the library normalised the angle, the camera
  would hold the normalised angle at every capture past step 180 and after
  the loop. `SweepAt` and `SweepAzimuths` describe the value assigned at
  flybys/render.py:178 (`float(step)`), which is what the camera holds only if
  the setter is a plain store.
- Loader.ToIndex: the model subtracts one in exact reals and casts to an
  unbounded integer. The source subtracts in float64, which rounds once
  values reach 2^53, and casts to a fixed-width integer (int64, or int32
  where that is the platform's default integer). Face fields beyond those
  ranges give other indices in the source, for example `f 1e19 1 1`.
- Loader.Trunc: the cast is to an unbounded integer; the source's fixed-width
  cast agrees only for values within the range of its integer type.
- Drawing the mesh, grabbing the frame and scaling its samples by 255 into
  8-bit integers: all are inside the abstract `capture`. The mesh material
  (specular 0.0, diffuse 0.9), the black background, the hidden axis and grid
  and the 500 by 400 window only affect what `capture` draws and are not
  modelled.
- Writing the GIF with its per-frame duration and the progress bar: external
  libraries. `CreateAnimation` returns the list that would be passed to the
  encoder.
- The initial azimuth and elevation of the 3D camera are the renderer's
  defaults, not set by this code; the model takes them from the `Axes` object.
- Creating the GUI application and window (`MainWindow`), the interactive
  viewer `visualize_shape_model`, the download step `download_shape_model`,
  the driver `render_meteorite_model` and the module-level call: GUI, network
  and file-system work with no logic of their own.
- auxiliary/photometry.py: floating-point photometric formulas, not part of
  this model.
- Failure of a render step: `capture` is total, so the all-or-nothing abort
  of a sweep is not modelled.
