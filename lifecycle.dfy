/** The load states of slide content (the `elements` map) and the effect on
    them of loading the preload window of the new index and unloading the
    window of the old one. */
module Lifecycle {
  import opened IndexArith
  import opened Preload

  /** An entry of `elements`: 1 loading, 2 done, 3 failed. A missing key is
      the unset state. */
  datatype LoadState = Loading | Done | Failed

  /** What the core observes of a slide element: whether it already holds
      content, and whether it carries the error class. */
  datatype SlideDom = SlideDom(hasContent: bool, errorClass: bool)

  /** The state `loadElement` gives an unset entry: a slide that already holds
      content is done or failed by its error class; otherwise content is
      requested and the entry is loading. */
  function FirstLoad(dom: SlideDom): (st: LoadState)
    ensures st == Loading <==> !dom.hasContent
    ensures st == Failed <==> dom.hasContent && dom.errorClass
  {
    if dom.hasContent then (if dom.errorClass then Failed else Done) else Loading
  }

  /** The state `oncomplete` records for a slide whose content finished. */
  function Completed(isError: bool): (st: LoadState)
    ensures st != Loading
    ensures st == Failed <==> isError
  {
    if isError then Failed else Done
  }

  /** Loading the indices in `win`: entries already set stay as they are;
      every unset entry of the window is set by `FirstLoad`, and a slide
      without content receives it; nothing else changes. */
  ghost predicate Loaded(e0: map<int, LoadState>, d0: seq<SlideDom>,
                         e1: map<int, LoadState>, d1: seq<SlideDom>, win: seq<int>)
  {
    InRange(win, |d0|) && |d1| == |d0| &&
    (forall i :: i in e1 <==> i in e0 || i in win) &&
    (forall i :: i in e0 ==> e1[i] == e0[i]) &&
    (forall i :: i in win && i !in e0 ==> e1[i] == FirstLoad(d0[i])) &&
    (forall i :: 0 <= i < |d0| ==>
      d1[i] == if i in win && i !in e0 then d0[i].(hasContent := true) else d0[i])
  }

  /** Unloading the window `win` of the old index for a move to `newIndex`:
      exactly the window's indices that are far from `newIndex` lose their
      entry and their content; nothing else changes. */
  ghost predicate Unloaded(e0: map<int, LoadState>, d0: seq<SlideDom>,
                           e1: map<int, LoadState>, d1: seq<SlideDom>,
                           win: seq<int>, range: nat, newIndex: int)
  {
    var num := |d0|;
    InRange(win, num) && |d1| == num &&
    (forall i :: i in e1 <==> i in e0 && !(i in win && Far(num, range, i, newIndex))) &&
    (forall i :: i in e1 ==> e1[i] == e0[i]) &&
    (forall i :: 0 <= i < num ==>
      d1[i] == if i in win && Far(num, range, i, newIndex) then d0[i].(hasContent := false) else d0[i])
  }

  /** One more index of the window loaded by `loadElement`. */
  lemma LoadStep(e0: map<int, LoadState>, d0: seq<SlideDom>,
                 e: map<int, LoadState>, d: seq<SlideDom>,
                 e1: map<int, LoadState>, d1: seq<SlideDom>, win: seq<int>, k: int)
    requires 0 <= k < |win| && InRange(win, |d0|)
    requires Loaded(e0, d0, e, d, win[..k])
    requires var i := win[k];
      if i in e then e1 == e && d1 == d
      else e1 == e[i := FirstLoad(d[i])] && d1 == d[i := d[i].(hasContent := true)]
    ensures Loaded(e0, d0, e1, d1, win[..k + 1])
  {
    assert win[..k + 1] == win[..k] + [win[k]];
  }

  /** One more index of the old window examined by `unloadElements`. */
  lemma UnloadStep(e0: map<int, LoadState>, d0: seq<SlideDom>,
                   e: map<int, LoadState>, d: seq<SlideDom>,
                   e1: map<int, LoadState>, d1: seq<SlideDom>,
                   win: seq<int>, k: int, range: nat, newIndex: int)
    requires 0 <= k < |win| && InRange(win, |d0|)
    requires Unloaded(e0, d0, e, d, win[..k], range, newIndex)
    requires var i := win[k];
      if Far(|d0|, range, i, newIndex) then e1 == e - {i} && d1 == d[i := d[i].(hasContent := false)]
      else e1 == e && d1 == d
    ensures Unloaded(e0, d0, e1, d1, win[..k + 1], range, newIndex)
  {
    assert win[..k + 1] == win[..k] + [win[k]];
  }

  /** The effect of `handleSlide` on the load states: the window of the new
      index is loaded and, when unloading is enabled, the far indices of the
      old window are discarded. */
  ghost predicate Navigated(e0: map<int, LoadState>, d0: seq<SlideDom>,
                            e1: map<int, LoadState>, d1: seq<SlideDom>,
                            wOld: seq<int>, wNew: seq<int>, unload: bool, range: nat, newIndex: int)
  {
    var num := |d0|;
    InRange(wOld, num) && InRange(wNew, num) && |d1| == num &&
    (forall i :: i in e1 <==> (i in e0 || i in wNew) && !Dropped(num, wOld, unload, range, newIndex, i)) &&
    (forall i :: i in e1 && i in e0 ==> e1[i] == e0[i]) &&
    (forall i :: i in e1 && i !in e0 ==> e1[i] == FirstLoad(d0[i])) &&
    (forall i :: 0 <= i < num ==>
      d1[i] == if Dropped(num, wOld, unload, range, newIndex, i) then d0[i].(hasContent := false)
               else if i in wNew && i !in e0 then d0[i].(hasContent := true)
               else d0[i])
  }

  /** The indices `handleSlide` unloads: those of the old window far from the
      new index, when unloading is enabled. */
  predicate Dropped(num: int, wOld: seq<int>, unload: bool, range: nat, newIndex: int, i: int) {
    unload && i in wOld && Far(num, range, i, newIndex)
  }

  /** Loading the new window and then unloading the old one is `Navigated`;
      in particular nothing the new window just loaded is discarded. */
  lemma LoadThenUnload(e0: map<int, LoadState>, d0: seq<SlideDom>,
                       e1: map<int, LoadState>, d1: seq<SlideDom>,
                       e2: map<int, LoadState>, d2: seq<SlideDom>,
                       num: int, wraps: bool, range: nat, oldIndex: int, newIndex: int)
    requires |d0| == num && 0 <= oldIndex < num && 0 <= newIndex < num
    requires Loaded(e0, d0, e1, d1, Window(num, wraps, range, newIndex))
    requires Unloaded(e1, d1, e2, d2, Window(num, wraps, range, oldIndex), range, newIndex)
    ensures Navigated(e0, d0, e2, d2, Window(num, wraps, range, oldIndex),
                      Window(num, wraps, range, newIndex), true, range, newIndex)
    ensures forall i :: i in Window(num, wraps, range, newIndex) ==> i in e2
  {
    var wOld := Window(num, wraps, range, oldIndex);
    var wNew := Window(num, wraps, range, newIndex);
    forall i | i in wNew
      ensures !Far(num, range, i, newIndex)
    {
      NearNotFar(num, wraps, range, newIndex, i);
    }
    forall i | i in e2 && i !in e0
      ensures e2[i] == FirstLoad(d0[i])
    {
      assert i in wNew;
    }
    forall i | 0 <= i < num
      ensures d2[i] == if i in wOld && Far(num, range, i, newIndex) then d0[i].(hasContent := false)
                       else if i in wNew && i !in e0 then d0[i].(hasContent := true)
                       else d0[i]
    {
      if i in wOld && Far(num, range, i, newIndex) {
        assert i !in wNew;
      }
    }
  }

  /** With unloading disabled, `handleSlide` only loads. */
  lemma LoadOnly(e0: map<int, LoadState>, d0: seq<SlideDom>,
                 e1: map<int, LoadState>, d1: seq<SlideDom>,
                 wOld: seq<int>, wNew: seq<int>, range: nat, newIndex: int)
    requires InRange(wOld, |d0|) && InRange(wNew, |d0|)
    requires Loaded(e0, d0, e1, d1, wNew)
    ensures Navigated(e0, d0, e1, d1, wOld, wNew, false, range, newIndex)
  {
  }

  /** `handleSlide` for the index the gallery is already at only loads:
      nothing of its own window is far from it. */
  lemma NavigatedInPlace(e0: map<int, LoadState>, d0: seq<SlideDom>,
                         e1: map<int, LoadState>, d1: seq<SlideDom>,
                         num: int, wraps: bool, unload: bool, range: nat, center: int)
    requires |d0| == num && 0 <= center < num
    requires Navigated(e0, d0, e1, d1, Window(num, wraps, range, center),
                       Window(num, wraps, range, center), unload, range, center)
    ensures Loaded(e0, d0, e1, d1, Window(num, wraps, range, center))
  {
    forall i | i in Window(num, wraps, range, center)
      ensures !Far(num, range, i, center)
    {
      NearNotFar(num, wraps, range, center, i);
    }
  }

  /** In continuous mode with at least 2 * range + 1 slides and unloading
      enabled, a move keeps exactly the new window loaded: if only the old
      window had entries before, only the new window has entries after. */
  lemma WindowStaysExact(e0: map<int, LoadState>, d0: seq<SlideDom>,
                         e1: map<int, LoadState>, d1: seq<SlideDom>,
                         range: nat, oldIndex: int, newIndex: int)
    requires |d0| >= 2 * range + 1 && 0 <= oldIndex < |d0| && 0 <= newIndex < |d0|
    requires forall i :: i in e0 <==> i in Window(|d0|, true, range, oldIndex)
    requires Navigated(e0, d0, e1, d1, Window(|d0|, true, range, oldIndex),
                       Window(|d0|, true, range, newIndex), true, range, newIndex)
    ensures forall i :: i in e1 <==> i in Window(|d0|, true, range, newIndex)
  {
    var num := |d0|;
    forall i
      ensures i in e1 <==> i in Window(num, true, range, newIndex)
    {
      if i in Window(num, true, range, newIndex) {
        NearNotFar(num, true, range, newIndex, i);
      } else if i in e0 {
        assert 0 <= i < num by {
          WindowShape(num, true, range, oldIndex);
          var k :| 0 <= k < |Window(num, true, range, oldIndex)| && Window(num, true, range, oldIndex)[k] == i;
        }
        ContinuousWindowExact(num, range, newIndex, i);
      }
    }
  }
}
