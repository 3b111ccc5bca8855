/** The application context's main loop: `core_update` runs one frame and
    `start` drives the frames between `on_user_create` and the final
    `on_user_destroy`.

    The window and the application hooks are outside the model; what they
    answer comes in as scripts, one `Frame` per `core_update` call and one
    `Ending` per pass through the end of the outer loop. A script that runs
    out before `start` returns stops the run with no return code. */
module Lifecycle {
  import opened Engines
  import opened Input

  /** The answers of one `core_update`: whether the window is open, the
      window's mouse position, button and wheel readings, the frame's key
      lists, the result of `on_user_update`, and whether presenting the
      frame buffer succeeded. */
  datatype Frame = Frame(open: bool, mousePos: Option<(int, int)>, mouseDown: seq<bool>, wheel: Option<int>,
                         keys: KeyFrame, update: bool, presented: bool)

  /** The answer of `on_user_destroy` and whether the window is open just
      after it. */
  datatype Ending = Ending(destroy: bool, open: bool)

  datatype RCode = Ok | Fail

  /** The loop stops for good after this ending: the application agreed to
      close, or the window is gone. */
  predicate Final(e: Ending)
  {
    e.destroy || !e.open
  }

  /** Every frame of a script carries the three button readings. */
  predicate WellFormed(frames: seq<Frame>)
  {
    forall k :: 0 <= k < |frames| ==> |frames[k].mouseDown| == 3
  }

  class Context {
    const engine: Engine

    constructor (e: Engine)
      ensures engine == e
    {
      engine := e;
    }

    /** `core_update`: a closed window deactivates the engine and ends the
        frame at once; otherwise the mouse and keys are read, and the engine
        is deactivated when `on_user_update` returns false or presenting the
        frame fails. Nothing here ever activates the engine. */
    method CoreUpdate(f: Frame)
      requires engine.Valid() && |f.mouseDown| == 3
      modifies engine, engine.mouseState, engine.keyboardState
      ensures engine.Valid() && engine.drawTarget == old(engine.drawTarget)
      ensures engine.pixelMode == old(engine.pixelMode) && engine.blendFactor == old(engine.blendFactor)
      ensures engine.active == (old(engine.active) && f.open && f.update && f.presented)
      ensures !f.open ==> unchanged(engine.mouseState, engine.keyboardState)
      ensures !f.open ==> engine.mouseX == old(engine.mouseX) && engine.mouseY == old(engine.mouseY)
      ensures f.open ==> forall j :: 0 <= j < KEY_COUNT ==> engine.keyboardState[j] == KeyAfter(f.keys, j as Key)
      ensures f.open ==> forall i :: 0 <= i < 3 ==> engine.mouseState[i] == NextButton(old(engine.mouseState[i]), f.mouseDown[i])
    {
      if !f.open {
        engine.active := false;
        return;
      }
      engine.UpdateMouse(f.mousePos, f.mouseDown, f.wheel);
      engine.UpdateKeys(f.keys);
      if !f.update {
        engine.active := false;
      }
      if !f.presented {
        engine.active := false;
      }
    }

    /** `start`: Fail at once, before any frame, when `on_user_create`
        refuses; otherwise frames run while the engine is active, and each
        time they stop the loop is entered again only if `on_user_destroy`
        refuses and the window is still open. `used` and `ended` count the
        frames and endings consumed; `None` means a script ran out first. */
    method Start(create: bool, frames: seq<Frame>, endings: seq<Ending>) returns (code: Option<RCode>, used: nat, ended: nat)
      requires engine.Valid() && WellFormed(frames)
      modifies engine, engine.mouseState, engine.keyboardState
      ensures used <= |frames| && ended <= |endings|
      ensures !create ==> code == Some(Fail) && used == 0 && ended == 0
      ensures code != Some(Fail) ==> create
      ensures code == Some(Ok) ==> !engine.active && (ended == 0 ==> !old(engine.active))
      ensures code == Some(Ok) && ended > 0 ==> Final(endings[ended - 1])
      ensures code == None ==> used == |frames| || ended == |endings|
      ensures forall k :: 0 <= k < ended - 1 ==> !Final(endings[k])
    {
      if !create {
        return Some(Fail), 0, 0;
      }
      used, ended := 0, 0;
      while engine.active
        invariant engine.Valid() && used <= |frames| && ended <= |endings|
        invariant ended == 0 ==> engine.active == old(engine.active)
        invariant ended > 0 ==> (engine.active <==> !Final(endings[ended - 1]))
        invariant forall k :: 0 <= k < ended - 1 ==> !Final(endings[k])
        decreases |endings| - ended
      {
        while engine.active
          invariant engine.Valid() && used <= |frames|
          decreases |frames| - used
        {
          if used == |frames| {
            return None, used, ended;
          }
          CoreUpdate(frames[used]);
          used := used + 1;
        }
        if ended == |endings| {
          return None, used, ended;
        }
        var e := endings[ended];
        ended := ended + 1;
        if !e.destroy && e.open {
          engine.active := true;
        }
      }
      code := Some(Ok);
    }
  }
}
