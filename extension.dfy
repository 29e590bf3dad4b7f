/**
 The GameMaker extension's entry points and its one piece of state, the
 "initialized" flag. GameMaker passes and receives numbers as doubles, so
 the status codes are reals; the double parameters of `niceshot_save_png`
 are only ever compared with zero, and `Double` models exactly what such a
 comparison sees.
 */
module Extension {
  import opened Wrappers

  /** An IEEE double as far as an ordered comparison can tell it apart. */
  datatype Double = Finite(value: real) | PosInf | NegInf | NaN

  /** IEEE `d <= 0`: false for NaN, as every ordered comparison with NaN is. */
  predicate AtMostZero(d: Double)
  {
    match d
    case Finite(v) => v <= 0.0
    case NegInf => true
    case PosInf => false
    case NaN => false
  }

  /** The status codes returned to GameMaker. */
  const Success: real := 1.0
  const Failure: real := 0.0

  /** The version string reported by `niceshot_get_version`. */
  const Version: string := "NiceShot v0.1.0 - Development Build"

  /** The reply of `niceshot_test`: the error sentinel -1.0, or the double
      nearest to `input + 1`. */
  datatype TestReply = Sentinel | Incremented(input: Double)

  /** The status `niceshot_save_png` returns: failure when the extension is
      not initialized, failure when the buffer handle, the width or the
      height is at most zero or the path is null, and success otherwise. */
  function SavePngStatus(initialized: bool, bufferPtr: Double, width: Double, height: Double,
                         filepath: Option<string>): (r: real)
    ensures r == Success || r == Failure
    ensures r == Success <==>
      initialized && !AtMostZero(bufferPtr) && !AtMostZero(width) && !AtMostZero(height) && filepath.Some?
  {
    if !initialized then Failure
    else if AtMostZero(bufferPtr) || AtMostZero(width) || AtMostZero(height) || filepath.None? then Failure
    else Success
  }

  /** The validation only rejects values that compare at most zero: NaN
      dimensions and a NaN buffer handle are accepted, and so is an infinite
      width. */
  lemma SavePngAcceptsNaN()
    ensures SavePngStatus(true, NaN, NaN, NaN, Some("")) == Success
    ensures SavePngStatus(true, Finite(1.0), PosInf, Finite(1.0), Some("")) == Success
    ensures SavePngStatus(true, Finite(1.0), NegInf, Finite(1.0), Some("")) == Failure
  {
  }

  /** The extension: a single flag, clear when the library is loaded, set by
      `Init` and cleared by `Shutdown`; every other entry point reads it. */
  /** A call that changes the flag. */
  datatype LifecycleCall = InitCall | ShutdownCall

  class NiceShot {
    var initialized: bool

    constructor()
      ensures !initialized
    {
      initialized := false;
    }

    /** `niceshot_init`: succeeds and leaves the extension initialized,
        whether or not it already was. */
    method Init() returns (r: real)
      modifies this
      ensures initialized && r == Success
      ensures old(initialized) ==> unchanged(this)
    {
      if initialized {
        return Success;
      }
      initialized := true;
      return Success;
    }

    /** `niceshot_shutdown`: succeeds and leaves the extension uninitialized;
        when it already was, nothing changes. */
    method Shutdown() returns (r: real)
      modifies this
      ensures !initialized && r == Success
      ensures !old(initialized) ==> unchanged(this)
    {
      if !initialized {
        return Success;
      }
      initialized := false;
      return Success;
    }

    /** `niceshot_test`: the sentinel exactly when the extension is not
        initialized. */
    method Test(input: Double) returns (reply: TestReply)
      ensures reply.Sentinel? <==> !initialized
      ensures reply.Incremented? ==> reply.input == input
    {
      if !initialized {
        return Sentinel;
      }
      return Incremented(input);
    }

    /** `niceshot_get_version`: the same string on every call, in every state. */
    method GetVersion() returns (v: string)
      ensures v == Version
    {
      v := Version;
    }

    /** A session of lifecycle calls, made one after another through `Init`
        and `Shutdown`: each succeeds, and the flag ends as `FlagAfter`
        describes. */
    method RunLifecycle(calls: seq<LifecycleCall>) returns (statuses: seq<real>)
      modifies this
      ensures |statuses| == |calls| && forall i :: 0 <= i < |statuses| ==> statuses[i] == Success
      ensures initialized == FlagAfter(old(initialized), calls)
    {
      statuses := [];
      var n := 0;
      while n < |calls|
        invariant 0 <= n <= |calls| && |statuses| == n
        invariant forall i :: 0 <= i < n ==> statuses[i] == Success
        invariant FlagAfter(initialized, calls[n..]) == FlagAfter(old(initialized), calls)
      {
        assert calls[n..][1..] == calls[n + 1..];
        var r;
        if calls[n] == InitCall {
          r := Init();
        } else {
          r := Shutdown();
        }
        statuses := statuses + [r];
        n := n + 1;
      }
    }

    /** `niceshot_save_png`: the status `SavePngStatus` describes; no PNG is
        written and the flag is left alone. */
    method SavePng(bufferPtr: Double, width: Double, height: Double, filepath: Option<string>) returns (r: real)
      ensures r == SavePngStatus(initialized, bufferPtr, width, height, filepath)
    {
      if !initialized {
        return Failure;
      }
      if AtMostZero(bufferPtr) || AtMostZero(width) || AtMostZero(height) || filepath.None? {
        return Failure;
      }
      return Success;
    }
  }


  /** The flag after a session of lifecycle calls, each one made through
      `NiceShot.Init` or `NiceShot.Shutdown`. */
  function FlagAfter(initialized: bool, calls: seq<LifecycleCall>): bool
    decreases |calls|
  {
    if |calls| == 0 then initialized else FlagAfter(calls[0] == InitCall, calls[1..])
  }

  /** Only the last lifecycle call matters (with none, the flag keeps its
      value), so repeating a call is harmless. */
  lemma {:induction false} FlagAfterLastCall(initialized: bool, calls: seq<LifecycleCall>)
    ensures FlagAfter(initialized, calls) == if |calls| == 0 then initialized else calls[|calls| - 1] == InitCall
    decreases |calls|
  {
    if |calls| > 1 {
      FlagAfterLastCall(calls[0] == InitCall, calls[1..]);
      assert calls[1..][|calls[1..]| - 1] == calls[|calls| - 1];
    }
  }
}
