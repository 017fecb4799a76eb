/** The gallery's options as the core reads them, the list items, and the
    start-index lookup of `initStartIndex`. */
module Config {
  import opened IndexArith

  datatype Option<T> = None | Some(value: T)

  function Pick<T>(given: Option<T>, fallback: T): T {
    match given
    case Some(v) => v
    case None => fallback
  }

  /** The `continuous` option after `initOptions`: `true`, `false`, or `null`
      ("asked for, but there are fewer than three slides"). Only `On` is
      truthy; the other two both mean linear mode. */
  datatype Continuity = On | Off | Suspended

  /** A list item as the core sees it: an identity (the source compares
      objects with `===`) and the URL the item-property accessor reads off
      it, `None` when it has none. */
  datatype Item = Item(id: nat, url: Option<string>)

  /** The `index` option: a number, or an object to look up in the list. */
  datatype StartIndex = Number(n: int) | Object(item: Item)

  /** The options a caller passes to the constructor; `None` is a key the
      caller left out. */
  datatype UserOptions = UserOptions(
    carousel: Option<bool>,
    continuous: Option<bool>,
    closeOnSwipeUpOrDown: Option<bool>,
    unloadElements: Option<bool>,
    clearSlides: Option<bool>,
    preloadRange: Option<nat>,
    transitionDuration: Option<int>,
    index: Option<StartIndex>)

  /** The options in effect once `initOptions` has run. */
  datatype Settings = Settings(
    carousel: bool,
    continuous: Continuity,
    closeOnSwipeUpOrDown: bool,
    unloadElements: bool,
    clearSlides: bool,
    preloadRange: nat,
    transitionDuration: int,
    index: StartIndex)

  /** The prototype's option defaults (for the options the core reads). */
  const Defaults := Settings(
    carousel := false,
    continuous := On,
    closeOnSwipeUpOrDown := true,
    unloadElements := true,
    clearSlides := true,
    preloadRange := 2,
    transitionDuration := 300,
    index := Number(0))

  /** Whether the carousel preset applies: the caller asked for a carousel,
      or the defaults ask for one and the caller did not refuse it. */
  predicate CarouselPreset(user: UserOptions) {
    user.carousel == Some(true) || (Defaults.carousel && user.carousel != Some(false))
  }

  /** `initOptions`: defaults, then the carousel preset, then the caller's own
      options; with fewer than three slides a truthy `continuous` becomes
      `Suspended` and a falsy one `Off`. */
  function InitOptions(user: UserOptions, num: int): (s: Settings)
    ensures num < 3 ==> !s.continuous.On?
    ensures s.continuous.On? <==> num >= 3 && Pick(user.continuous, true)
    ensures s.continuous.Suspended? <==> num < 3 && Pick(user.continuous, true)
    ensures user.closeOnSwipeUpOrDown.Some? ==> s.closeOnSwipeUpOrDown == user.closeOnSwipeUpOrDown.value
    ensures user.closeOnSwipeUpOrDown.None? ==> (s.closeOnSwipeUpOrDown <==> user.carousel != Some(true))
    ensures s.carousel <==> user.carousel == Some(true)
  {
    var base := if CarouselPreset(user) then Defaults.(closeOnSwipeUpOrDown := false) else Defaults;
    var wanted := Pick(user.continuous, base.continuous.On?);
    Settings(
      carousel := Pick(user.carousel, base.carousel),
      continuous :=
        if num < 3 then (if wanted then Suspended else Off)
        else if wanted then On else Off,
      closeOnSwipeUpOrDown := Pick(user.closeOnSwipeUpOrDown, base.closeOnSwipeUpOrDown),
      unloadElements := Pick(user.unloadElements, base.unloadElements),
      clearSlides := Pick(user.clearSlides, base.clearSlides),
      preloadRange := Pick(user.preloadRange, base.preloadRange),
      transitionDuration := Pick(user.transitionDuration, base.transitionDuration),
      index := Pick(user.index, base.index))
  }

  /** The lookup test of `initStartIndex`: the same object, or the same URL
      (two items without a URL compare equal, as `undefined === undefined`). */
  predicate SameItem(a: Item, b: Item) {
    a.id == b.id || a.url == b.url
  }

  /** `initStartIndex`: a number is normalised with `circle`; an object is
      looked up in the list and, when no item matches, the start index is 0. */
  method StartIndexOf(list: seq<Item>, start: StartIndex) returns (index: int)
    requires |list| >= 1
    ensures 0 <= index < |list|
    ensures start.Number? ==> index == Circle(|list|, start.n)
    ensures start.Object? ==>
      (forall k :: 0 <= k < index ==> !SameItem(list[k], start.item)) &&
      (SameItem(list[index], start.item) || (index == 0 && forall k :: 0 <= k < |list| ==> !SameItem(list[k], start.item)))
  {
    match start {
      case Number(n) =>
        index := Circle(|list|, n);
      case Object(item) =>
        var i := 0;
        index := 0;
        var found := false;
        while i < |list|
          invariant 0 <= i <= |list|
          invariant forall k :: 0 <= k < i ==> !SameItem(list[k], item)
        {
          if SameItem(list[i], item) {
            index := i;
            found := true;
            break;
          }
          i := i + 1;
        }
        if !found {
          index := Circle(|list|, 0);
        }
    }
  }
}
