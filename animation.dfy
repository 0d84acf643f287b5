/** The rotation sweep of `create_animation` in flybys/render.py.

    The axes object carries the camera and the lights. After they are set up,
    a loop over the steps 0 .. steps-1 sets the camera azimuth to the step,
    draws and grabs one frame, and appends it to a list that starts empty;
    only when the loop is over does the whole list go to the image encoder.
    Drawing and grabbing a frame (and its conversion to 8-bit samples) stay
    abstract: they are the parameter `capture`, a function from the scene the
    renderer draws to a frame of any type `F`. */
module Animation {

  /** The 3D camera: azimuth and elevation in degrees, field of view, zoom. */
  datatype Camera = Camera(azimuth: real, elevation: real, fov: real, zoom: real)

  /** A point light: switched on or off, and its homogeneous position. */
  datatype Light = Light(on: bool, x: real, y: real, z: real, w: real)

  /** What the renderer draws the mesh with: the camera and the two lights
      the sweep configures. */
  datatype Scene = Scene(camera: Camera, light0: Light, light1: Light)

  /** The number of steps when the caller gives none: a full turn. */
  const DefaultSteps := 360
  const FieldOfView := 60.0
  const Zoom := 0.1
  const LightPosition := (5.0, 5.0, 5.0, 0.0)

  /** The scene of step `step`: the given scene turned to azimuth `step`
      degrees, nothing else changed. */
  function Turned(s: Scene, step: int): Scene {
    s.(camera := s.camera.(azimuth := step as real))
  }

  /** The frames a sweep of `steps` steps collects from scene `s`, built the
      way the loop builds them: one frame appended per step. */
  function SweepFrames<F>(s: Scene, steps: int, capture: Scene -> F): seq<F>
    decreases steps
  {
    if steps <= 0 then [] else SweepFrames(s, steps - 1, capture) + [capture(Turned(s, steps - 1))]
  }

  /** A sweep collects one frame per step, none when `steps` is not positive. */
  lemma {:induction false} SweepLength<F>(s: Scene, steps: int, capture: Scene -> F)
    ensures |SweepFrames(s, steps, capture)| == if steps > 0 then steps else 0
  {
    if steps > 0 {
      SweepLength(s, steps - 1, capture);
    }
  }

  /** Frame `k` is the one captured with the camera at azimuth `k` degrees and
      every other setting as it was before the sweep. */
  lemma {:induction false} SweepAt<F>(s: Scene, steps: int, capture: Scene -> F, k: int)
    requires 0 <= k < steps
    ensures |SweepFrames(s, steps, capture)| == steps
    ensures SweepFrames(s, steps, capture)[k] == capture(Turned(s, k))
  {
    SweepLength(s, steps, capture);
    if k < steps - 1 {
      SweepLength(s, steps - 1, capture);
      SweepAt(s, steps - 1, capture, k);
    }
  }

  /** A longer sweep extends a shorter one: frames are only appended, never
      reordered or replaced. */
  lemma {:induction false} SweepPrefix<F>(s: Scene, m: int, n: int, capture: Scene -> F)
    requires m <= n
    ensures SweepFrames(s, m, capture) <= SweepFrames(s, n, capture)
  {
    if m < n && n > 0 {
      SweepPrefix(s, m, n - 1, capture);
    }
  }

  /** The azimuths the frames are captured at run 0, 1, ..., steps-1 in
      increasing order. */
  lemma SweepAzimuths(s: Scene, steps: int)
    ensures var az := SweepFrames(s, steps, (w: Scene) => w.camera.azimuth);
            |az| == (if steps > 0 then steps else 0) &&
            (forall k :: 0 <= k < |az| ==> az[k] == k as real) &&
            (forall j, k :: 0 <= j < k < |az| ==> az[j] < az[k])
  {
    var capture := (w: Scene) => w.camera.azimuth;
    var az := SweepFrames(s, steps, capture);
    SweepLength(s, steps, capture);
    forall k | 0 <= k < |az|
      ensures az[k] == k as real
    {
      SweepAt(s, steps, capture, k);
    }
  }

  /** The axes object of the renderer, whose camera and lights the sweep sets. */
  class Axes {
    var camera: Camera
    var light0: Light
    var light1: Light

    function CurrentScene(): Scene
      reads this
    {
      Scene(camera, light0, light1)
    }

    constructor (camera: Camera, light0: Light, light1: Light)
      ensures CurrentScene() == Scene(camera, light0, light1)
    {
      this.camera := camera;
      this.light0 := light0;
      this.light1 := light1;
    }

    /** The set-up before the sweep: a field of view of 60 degrees, a zoom of
        0.1, the default light off and the second light on at (5, 5, 5, 0).
        Azimuth and elevation keep the values the 3D camera already has. */
    method Configure()
      modifies this
      ensures camera == old(camera).(fov := FieldOfView, zoom := Zoom)
      ensures light0 == old(light0).(on := false)
      ensures light1 == Light(true, LightPosition.0, LightPosition.1, LightPosition.2, LightPosition.3)
    {
      camera := camera.(fov := FieldOfView, zoom := Zoom);
      light0 := light0.(on := false);
      light1 := Light(true, LightPosition.0, LightPosition.1, LightPosition.2, LightPosition.3);
    }

    /** The loop: for every step, turn the camera to that azimuth, capture a
        frame and append it. Returns the list handed to the encoder. The
        lights and every camera setting but the azimuth are left as they
        were. Setting the azimuth is modelled as a plain store, so the camera
        is left at the last step's azimuth. */
    method Sweep<F>(capture: Scene -> F, steps: int := DefaultSteps) returns (frames: seq<F>)
      modifies this
      ensures frames == SweepFrames(old(CurrentScene()), steps, capture)
      ensures camera == if steps > 0 then old(camera).(azimuth := (steps - 1) as real) else old(camera)
      ensures light0 == old(light0) && light1 == old(light1)
    {
      ghost var s0 := CurrentScene();
      frames := [];
      var step := 0;
      while step < steps
        invariant 0 <= step <= (if steps > 0 then steps else 0)
        invariant frames == SweepFrames(s0, step, capture)
        invariant camera == if step > 0 then s0.camera.(azimuth := (step - 1) as real) else s0.camera
        invariant light0 == s0.light0 && light1 == s0.light1
      {
        camera := camera.(azimuth := step as real);
        frames := frames + [capture(CurrentScene())];
        step := step + 1;
      }
    }
  }

  /** The part of `create_animation` after the mesh is built: set up the
      camera and the lights, then sweep. Frame `k` is captured with the
      configured camera turned to azimuth `k` and the configured lights. */
  method CreateAnimation<F>(axes: Axes, capture: Scene -> F, steps: int := DefaultSteps) returns (frames: seq<F>)
    modifies axes
    ensures |frames| == if steps > 0 then steps else 0
    ensures forall k :: 0 <= k < |frames| ==>
              frames[k] == capture(Scene(old(axes.camera).(azimuth := k as real, fov := FieldOfView, zoom := Zoom),
                                         old(axes.light0).(on := false),
                                         Light(true, LightPosition.0, LightPosition.1, LightPosition.2, LightPosition.3)))
  {
    axes.Configure();
    ghost var s0 := axes.CurrentScene();
    frames := axes.Sweep(capture, steps);
    SweepLength(s0, steps, capture);
    forall k | 0 <= k < |frames|
      ensures frames[k] == capture(Turned(s0, k))
    {
      SweepAt(s0, steps, capture, k);
    }
  }
}
