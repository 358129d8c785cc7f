/**
  * ViewStack: an ordered stack of views, the bottom first and the topmost
  * last, together with a positioning mode made of wrap and clip bits. Only
  * the stack bookkeeping the header documents is modelled: where a pushed view
  * is placed, how the bounds are recomputed and how the keep rectangle of a
  * purge is measured are not.
  */
module ViewStacks {
  import opened Pixel
  import opened ViewGeometry
  import opened Views

  /** The stack with every occurrence of v taken out, the others in their order. */
  function Without(s: seq<View>, v: View): (r: seq<View>)
    ensures |r| <= |s|
  {
    if s == [] then []
    else (if s[0] == v then [] else [s[0]]) + Without(s[1..], v)
  }

  /**
    * The views purgeViews keeps: with `completely`, those whose frame lies
    * within keep; otherwise also those whose frame only meets it.
    */
  function Kept(s: seq<View>, keep: PixelRect, completely: bool): (r: seq<View>)
    reads s
    ensures |r| <= |s|
  {
    if s == [] then []
    else (if Keeps(keep, s[0].frame, completely) then [s[0]] else []) + Kept(s[1..], keep, completely)
  }

  predicate Keeps(keep: PixelRect, f: PixelRect, completely: bool) {
    if completely then RectContainsRect(keep, f) else RectIntersectsRect(keep, f)
  }

  /** The first view of s (from the bottom) whose label is l, or -1. */
  function FirstLabelled(s: seq<View>, l: string): (i: int)
    reads s
    ensures -1 <= i < |s|
    ensures i >= 0 ==> s[i].viewLabel == l
    ensures forall j :: 0 <= j < |s| && (i < 0 || j < i) ==> s[j].viewLabel != l
  {
    if s == [] then -1
    else if s[0].viewLabel == l then 0
    else
      var k := FirstLabelled(s[1..], l);
      if k < 0 then -1 else k + 1
  }

  class ViewStack {
    var viewStack: seq<View>
    var positioningMode: WrapMode

    /** A new stack holds no views; its initial positioning mode is not modelled. */
    constructor ()
      ensures viewStack == []
    {
      viewStack := [];
    }

    method SetPositioningMode(mode: WrapMode)
      modifies this`positioningMode
      ensures positioningMode == mode
    {
      positioningMode := mode;
    }

    function GetPositioningMode(): (mode: WrapMode)
      reads this
      ensures mode == positioningMode
    {
      positioningMode
    }

    /**
      * Names the clip-bit test of the positioning mode (no clip bit set: the
      * source lets push, purge and child size changes adjust the content
      * bounds). The resizing itself is not modelled, so only
      * AutoResizesIffNoClipBits uses this predicate.
      */
    predicate AutoResizes()
      reads this
    {
      !HasFlag(positioningMode, ClipXmin) && !HasFlag(positioningMode, ClipXmax)
    }

    /** The view in front of all others, if any. */
    function Topmost(): (v: View?)
      reads this
      ensures v == null <==> viewStack == []
      ensures v != null ==> v == viewStack[|viewStack| - 1]
    {
      if viewStack == [] then null else viewStack[|viewStack| - 1]
    }

    /** pushView: the view goes on top, in front of all others. */
    method PushView(v: View, spacing: int)
      modifies this`viewStack
      ensures viewStack == old(viewStack) + [v]
      ensures Topmost() == v
    {
      viewStack := viewStack + [v];
    }

    /** popView: the topmost view is removed; an empty stack stays empty. */
    method PopView()
      modifies this`viewStack
      ensures old(viewStack) == [] ==> viewStack == []
      ensures old(viewStack) != [] ==> viewStack == old(viewStack)[..|old(viewStack)| - 1]
    {
      if viewStack != [] {
        viewStack := viewStack[..|viewStack| - 1];
      }
    }

    /** removeView: the given view leaves the stack, the others keep their order. */
    method RemoveView(v: View)
      modifies this`viewStack
      ensures viewStack == Without(old(viewStack), v)
    {
      var s := viewStack;
      var rest: seq<View> := [];
      var i := 0;
      while i < |s|
        invariant 0 <= i <= |s|
        invariant rest == Without(s[..i], v)
      {
        WithoutStep(s, i, v);
        if s[i] != v {
          rest := rest + [s[i]];
        }
        i := i + 1;
      }
      assert s[..i] == s;
      viewStack := rest;
    }

    /** clear: no views remain. */
    method Clear()
      modifies this`viewStack
      ensures viewStack == []
    {
      viewStack := [];
    }

    /** purgeViews against the keep rectangle the positioning mode yields. */
    method PurgeViews(keep: PixelRect, completely: bool)
      modifies this`viewStack
      ensures viewStack == Kept(old(viewStack), keep, completely)
    {
      var s := viewStack;
      var rest: seq<View> := [];
      var i := 0;
      while i < |s|
        invariant 0 <= i <= |s|
        invariant rest == Kept(s[..i], keep, completely)
      {
        KeptStep(s, i, keep, completely);
        if Keeps(keep, s[i].frame, completely) {
          rest := rest + [s[i]];
        }
        i := i + 1;
      }
      assert s[..i] == s;
      viewStack := rest;
    }

    /** getView: the first view with that label, or null when none has it. */
    method GetView(l: string) returns (v: View?)
      ensures v == null <==> forall j :: 0 <= j < |viewStack| ==> viewStack[j].viewLabel != l
      ensures v != null ==> v in viewStack && v.viewLabel == l
      ensures v != null ==> v == viewStack[FirstLabelled(viewStack, l)]
    {
      var i := 0;
      while i < |viewStack|
        invariant 0 <= i <= |viewStack|
        invariant forall j :: 0 <= j < i ==> viewStack[j].viewLabel != l
      {
        if viewStack[i].viewLabel == l {
          FirstLabelledIs(viewStack, l, i);
          return viewStack[i];
        }
        i := i + 1;
      }
      return null;
    }
  }

  // ----- lemmas -----

  lemma {:induction false} WithoutAppend(a: seq<View>, b: seq<View>, v: View)
    ensures Without(a + b, v) == Without(a, v) + Without(b, v)
  {
    if a == [] {
      assert a + b == b;
    } else {
      assert (a + b)[1..] == a[1..] + b;
      WithoutAppend(a[1..], b, v);
    }
  }

  lemma {:induction false} KeptAppend(a: seq<View>, b: seq<View>, keep: PixelRect, completely: bool)
    ensures Kept(a + b, keep, completely) == Kept(a, keep, completely) + Kept(b, keep, completely)
  {
    if a == [] {
      assert a + b == b;
    } else {
      assert (a + b)[1..] == a[1..] + b;
      KeptAppend(a[1..], b, keep, completely);
    }
  }

  lemma WithoutStep(s: seq<View>, i: int, v: View)
    requires 0 <= i < |s|
    ensures Without(s[..i + 1], v) == Without(s[..i], v) + if s[i] == v then [] else [s[i]]
  {
    WithoutAppend(s[..i], [s[i]], v);
    WithoutOne(s[i], v);
    assert s[..i + 1] == s[..i] + [s[i]];
  }

  lemma KeptStep(s: seq<View>, i: int, keep: PixelRect, completely: bool)
    requires 0 <= i < |s|
    ensures Kept(s[..i + 1], keep, completely) ==
      Kept(s[..i], keep, completely) + if Keeps(keep, s[i].frame, completely) then [s[i]] else []
  {
    KeptAppend(s[..i], [s[i]], keep, completely);
    KeptOne(s[i], keep, completely);
    assert s[..i + 1] == s[..i] + [s[i]];
  }

  lemma WithoutOne(w: View, v: View)
    ensures Without([w], v) == if w == v then [] else [w]
  {
    assert [w][1..] == [];
  }

  lemma KeptOne(w: View, keep: PixelRect, completely: bool)
    ensures Kept([w], keep, completely) == if Keeps(keep, w.frame, completely) then [w] else []
  {
    assert [w][1..] == [];
  }

  /** After removeView the view is gone, and every other view is still there. */
  lemma {:induction false} WithoutMembers(s: seq<View>, v: View, w: View)
    ensures w in Without(s, v) <==> w in s && w != v
  {
    if s != [] {
      WithoutMembers(s[1..], v, w);
      assert s == [s[0]] + s[1..];
    }
  }

  /** purgeViews keeps exactly the views that satisfy the keep test. */
  lemma {:induction false} KeptMembers(s: seq<View>, keep: PixelRect, completely: bool, w: View)
    ensures w in Kept(s, keep, completely) <==> w in s && Keeps(keep, w.frame, completely)
  {
    if s != [] {
      KeptMembers(s[1..], keep, completely, w);
      assert s == [s[0]] + s[1..];
    }
  }

  /** A view with a non-empty frame that survives a complete purge also survives a partial one. */
  lemma CompletelyKeptIsPartiallyKept(s: seq<View>, keep: PixelRect, w: View)
    requires w.frame.dx > 0 && w.frame.dy > 0
    requires w in Kept(s, keep, true)
    ensures w in Kept(s, keep, false)
  {
    KeptMembers(s, keep, true, w);
    ContainedIntersects(keep, w.frame);
    IntersectsSymmetric(keep, w.frame);
    KeptMembers(s, keep, false, w);
  }

  lemma {:induction false} FirstLabelledIs(s: seq<View>, l: string, i: int)
    requires 0 <= i < |s| && s[i].viewLabel == l
    requires forall j :: 0 <= j < i ==> s[j].viewLabel != l
    ensures FirstLabelled(s, l) == i
  {
    if i > 0 {
      FirstLabelledIs(s[1..], l, i - 1);
    }
  }

  /** The clip bits of both axes are the same two bits: any of 0x30 set stops auto-resizing. */
  lemma AutoResizesIffNoClipBits(vs: ViewStack)
    ensures vs.AutoResizes() <==> (vs.positioningMode / 16) % 4 == 0
  {
    var m := vs.positioningMode;
    assert (m / 16) % 4 == ((m / 16) % 2) + 2 * ((m / 32) % 2) by {
      assert m / 32 == (m / 16) / 2;
    }
  }

  /** Pushing then popping a view gives back the stack as it was. */
  method PushPopRestores(vs: ViewStack, v: View)
    modifies vs
    ensures vs.viewStack == old(vs.viewStack)
  {
    vs.PushView(v, 0);
    vs.PopView();
    assert (old(vs.viewStack) + [v])[..|old(vs.viewStack)|] == old(vs.viewStack);
  }
}
