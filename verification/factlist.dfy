/** The paged fact list of `src/factUtil.ts` (`generateFactListMessage`) and
    its navigation buttons (`handleInfoListButtonInteraction`): 15 facts per
    page, the requested page clamped into range, numbered entries, and
    previous / next buttons whose ids carry the target page and the
    auto-reply filter.
 */
module FactList {
  import opened Prelude
  import opened Dict
  import opened Facts

  const PageSize := 15

  const NavPrefix := "info-list-navigation"

  /** The facts the list shows, in record order: every defined value, and
      with `autoReplyOnly` only those with auto-reply on. */
  function Shown(facts: GuildFacts, autoReplyOnly: bool): (list: seq<Fact>)
    ensures |list| <= |facts|
    ensures forall f :: f in list <==> Some(f) in Values(facts) && (autoReplyOnly ==> f.autoReply)
    decreases |facts|
  {
    if |facts| == 0 then []
    else
      var rest := Shown(facts[1..], autoReplyOnly);
      assert Values(facts) == [facts[0].1] + Values(facts[1..]);
      var v := facts[0].1;
      if v.Some? && (autoReplyOnly ==> v.value.autoReply) then [v.value] + rest else rest
  }

  /** Whether one record entry is listed. */
  predicate Kept(v: Option<Fact>, autoReplyOnly: bool)
  {
    v.Some? && (autoReplyOnly ==> v.value.autoReply)
  }

  /** The list grows at its end as the record does: a property added last
      is listed last, after everything listed before it. Together with the
      empty record's empty list this fixes the list's order and
      multiplicity. */
  lemma {:induction false} ShownSnoc(facts: GuildFacts, e: (string, Option<Fact>), autoReplyOnly: bool)
    ensures Shown(facts + [e], autoReplyOnly)
         == Shown(facts, autoReplyOnly) + (if Kept(e.1, autoReplyOnly) then [e.1.value] else [])
    decreases |facts|
  {
    if |facts| > 0 {
      assert (facts + [e])[1..] == facts[1..] + [e];
      ShownSnoc(facts[1..], e, autoReplyOnly);
    } else {
      assert (facts + [e])[1..] == [];
    }
  }

  /** `Math.ceil(n / 15) - 1`: the last page index, which is -1 for an empty list. */
  function LastPage(n: nat): (m: int)
    ensures n == 0 <==> m == -1
    ensures n > 0 ==> 0 <= m && m * PageSize < n <= (m + 1) * PageSize
  {
    (n + PageSize - 1) / PageSize - 1
  }

  /** `Math.max(Math.min(requested, last), 0)`. */
  function ClampPage(requested: int, last: int): (p: int)
    ensures 0 <= p
    ensures last >= 0 ==> p <= last
    ensures 0 <= requested <= last ==> p == requested
    ensures requested < 0 ==> p == 0
    ensures last >= 0 && requested > last ==> p == last
    ensures last < 0 ==> p == 0
  {
    Max(Min(requested, last), 0)
  }

  function FlagText(b: bool): string
  {
    if b then "true" else "false"
  }

  /** The custom id of a navigation button leading to page `target`. */
  function NavId(target: int, autoReplyOnly: bool): string
  {
    NavPrefix + "|" + IntToString(target) + "|" + FlagText(autoReplyOnly)
  }

  /** One line of the list: its running number, the subject, the (R) mark. */
  datatype ListItem = ListItem(number: int, subject: string, autoReply: bool)

  /** The list message: the page shown, the last page index (the title reads
      "page+1 / last+1"), the entries, both buttons, whether the navigation
      row is attached, and whether the "(R)" footer is. */
  datatype ListView = ListView(
    page: int, last: int, items: seq<ListItem>,
    prevDisabled: bool, nextDisabled: bool, prevId: string, nextId: string,
    navShown: bool, footer: bool)

  /** The entries of the page starting at position `start`: up to 15
      facts, numbered from `start + 1`. */
  function Entries(list: seq<Fact>, start: nat): (items: seq<ListItem>)
    ensures |items| <= PageSize
    ensures forall i :: 0 <= i < |items| ==>
      start + i < |list| && items[i] == ListItem(start + i + 1, list[start + i].subject, list[start + i].autoReply)
    ensures start + PageSize <= |list| ==> |items| == PageSize
    ensures start < |list| ==> |items| >= 1
  {
    var slice := list[Min(start, |list|)..Min(start + PageSize, |list|)];
    seq(|slice|, i requires 0 <= i < |slice| => ListItem(i + 1 + start, slice[i].subject, slice[i].autoReply))
  }

  /** The message for page `requested` of `list` given its last page index. */
  function PageView(list: seq<Fact>, requested: int, autoReplyOnly: bool, last: int): (v: ListView)
    ensures v.page == ClampPage(requested, last) && v.last == last
    ensures v.items == Entries(list, v.page * PageSize)
    ensures v.prevId == NavId(v.page - 1, autoReplyOnly) && v.nextId == NavId(v.page + 1, autoReplyOnly)
    ensures v.prevDisabled <==> v.page == 0
    ensures v.nextDisabled <==> v.page == last
    ensures v.navShown <==> last != 0
    ensures v.footer <==> exists i :: 0 <= i < |v.items| && v.items[i].autoReply
  {
    var page := ClampPage(requested, last);
    var items := Entries(list, page * PageSize);
    ListView(page, last, items, page == 0, page == last,
             NavId(page - 1, autoReplyOnly), NavId(page + 1, autoReplyOnly),
             last != 0, exists i :: 0 <= i < |items| && items[i].autoReply)
  }

  /** `generateFactListMessage` as written: the last page index is
      `ceil(n / 15) - 1` even for an empty list, which is therefore drawn
      with the navigation row and an enabled "next" button. */
  function ListPage(facts: GuildFacts, requested: int, autoReplyOnly: bool): (v: ListView)
    ensures v.last == LastPage(|Shown(facts, autoReplyOnly)|)
    ensures v == PageView(Shown(facts, autoReplyOnly), requested, autoReplyOnly, v.last)
  {
    var list := Shown(facts, autoReplyOnly);
    PageView(list, requested, autoReplyOnly, LastPage(|list|))
  }

  /** What the list as written looks like: the navigation row is attached
      for an empty list and for one longer than a page; an empty list is
      page 0 without entries and with "next" enabled; any other list shows
      a page in range that has entries, and honours a request in range. */
  lemma ListPageShape(facts: GuildFacts, requested: int, autoReplyOnly: bool)
    ensures var v := ListPage(facts, requested, autoReplyOnly);
      var n := |Shown(facts, autoReplyOnly)|;
      && (v.navShown <==> n == 0 || n > PageSize)
      && (n == 0 ==> v.page == 0 && v.items == [] && !v.nextDisabled)
      && (n > 0 ==> 0 <= v.page <= v.last && |v.items| >= 1)
      && (0 <= requested <= v.last ==> v.page == requested)
  {
  }

  /** The list as evidently intended: an empty list is one empty page, so
      its last page index is 0 and it gets no navigation row. */
  function ListPageIntended(facts: GuildFacts, requested: int, autoReplyOnly: bool): (v: ListView)
    ensures v.navShown <==> |Shown(facts, autoReplyOnly)| > PageSize
    ensures 0 <= v.page <= v.last
    ensures |Shown(facts, autoReplyOnly)| > 0 ==> |v.items| >= 1
    ensures !v.nextDisabled ==> v.page + 1 <= v.last
    ensures v.last == Max(LastPage(|Shown(facts, autoReplyOnly)|), 0)
    ensures 0 <= requested <= v.last ==> v.page == requested
    ensures v.prevId == NavId(v.page - 1, autoReplyOnly) && v.nextId == NavId(v.page + 1, autoReplyOnly)
    ensures v.prevDisabled <==> v.page == 0
  {
    var list := Shown(facts, autoReplyOnly);
    PageView(list, requested, autoReplyOnly, Max(LastPage(|list|), 0))
  }

  /** On a non-empty list the two readings agree. */
  lemma ListReadingsAgree(facts: GuildFacts, requested: int, autoReplyOnly: bool)
    requires |Shown(facts, autoReplyOnly)| > 0
    ensures ListPage(facts, requested, autoReplyOnly) == ListPageIntended(facts, requested, autoReplyOnly)
  {
  }

  /** The fact at position `j = 15 * p + slot` of the list appears on page
      `p`, in slot `slot`, numbered `j + 1`. */
  lemma FactOnItsPage(facts: GuildFacts, autoReplyOnly: bool, p: int, slot: int)
    requires 0 <= p && 0 <= slot < PageSize
    requires p * PageSize + slot < |Shown(facts, autoReplyOnly)|
    ensures var list := Shown(facts, autoReplyOnly);
      var v := ListPage(facts, p, autoReplyOnly);
      && v.page == p
      && slot < |v.items|
      && v.items[slot] == ListItem(p * PageSize + slot + 1, list[p * PageSize + slot].subject, list[p * PageSize + slot].autoReply)
  {
    var list := Shown(facts, autoReplyOnly);
    var start := p * PageSize;
    var last := LastPage(|list|);
    assert p <= last by {
      assert start + slot < (last + 1) * PageSize;
      assert (last + 1) * PageSize - start == (last + 1 - p) * PageSize;
    }
    assert ListPage(facts, p, autoReplyOnly).items == Entries(list, start);
  }

  /** The decoded navigation id: the target page (None for NaN) and the
      auto-reply filter, which is on only for the exact text "true". */
  datatype NavTarget = NavTarget(page: Option<int>, autoReplyOnly: bool)

  /** `handleInfoListButtonInteraction`'s reading of a custom id. */
  function DecodeNav(customId: string): NavTarget
  {
    var parts := Split(customId, '|');
    var page := if 1 < |parts| then ParseInt(parts[1]) else None;
    NavTarget(page, PartAt(parts, 2) == Some("true"))
  }

  lemma IntToStringHasNoBar(k: int)
    ensures '|' !in IntToString(k)
  {
    var n: nat := if k < 0 then -k else k;
    var digits := NatToString(n);
    assert forall i :: 0 <= i < |digits| ==> digits[i] != '|';
    if k < 0 {
      assert IntToString(k) == "-" + digits;
    }
  }

  /** A navigation id reads back as the page and filter it was made from. */
  lemma NavIdRoundTrip(target: int, autoReplyOnly: bool)
    ensures DecodeNav(NavId(target, autoReplyOnly)) == NavTarget(Some(target), autoReplyOnly)
  {
    var num := IntToString(target);
    var flag := FlagText(autoReplyOnly);
    var parts := [NavPrefix, num, flag];
    IntToStringHasNoBar(target);
    assert parts[1..] == [num, flag];
    assert parts[1..][1..] == [flag];
    assert Join([flag], '|') == flag;
    assert Join([num, flag], '|') == num + "|" + flag;
    assert Join(parts, '|') == NavPrefix + "|" + (num + "|" + flag);
    assert NavPrefix + "|" + (num + "|" + flag) == NavId(target, autoReplyOnly);
    SplitOfJoin(parts, '|');
    ParseIntOfIntToString(target);
  }

  /** The `/info list` command: page `pagina - 1`, the first page when the
      option is absent, and the filter off unless asked for; the page is
      drawn as written. */
  function ListCommand(facts: GuildFacts, pagina: Option<int>, autoReply: Option<bool>): (v: ListView)
    ensures pagina.None? ==> v.page == 0
    ensures pagina.Some? && 1 <= pagina.value <= v.last + 1 ==> v.page == pagina.value - 1
    ensures v.nextId == NavId(v.page + 1, autoReply.GetOr(false))
    ensures var n := |Shown(facts, autoReply.GetOr(false))|;
      && v.last == LastPage(n)
      && (v.navShown <==> n == 0 || n > PageSize)
      && (n == 0 ==> v.items == [] && !v.nextDisabled)
  {
    var requested := pagina.GetOr(1) - 1;
    var flag := autoReply.GetOr(false);
    ListPageShape(facts, requested, flag);
    ListPage(facts, requested, flag)
  }

  /** `/info list` over the intended pagination: it agrees with the command
      as written whenever there is something to list. */
  function ListCommandIntended(facts: GuildFacts, pagina: Option<int>, autoReply: Option<bool>): (v: ListView)
    ensures pagina.None? ==> v.page == 0
    ensures pagina.Some? && 1 <= pagina.value <= v.last + 1 ==> v.page == pagina.value - 1
    ensures v.navShown <==> |Shown(facts, autoReply.GetOr(false))| > PageSize
    ensures !v.nextDisabled ==> v.page + 1 <= v.last
    ensures |Shown(facts, autoReply.GetOr(false))| > 0 ==> v == ListCommand(facts, pagina, autoReply)
  {
    var requested := pagina.GetOr(1) - 1;
    var v := ListPageIntended(facts, requested, autoReply.GetOr(false));
    assert v.page == ClampPage(requested, v.last);
    v
  }

  /** A navigation button press: the list redrawn, as written, at the page
      its id names. An id whose page is not a number is not modelled (None). */
  function HandleNavButton(facts: GuildFacts, customId: string): (v: Option<ListView>)
    ensures v.Some? <==> DecodeNav(customId).page.Some?
    ensures v.Some? ==> v.value == ListPage(facts, DecodeNav(customId).page.value, DecodeNav(customId).autoReplyOnly)
  {
    var target := DecodeNav(customId);
    if target.page.None? then None
    else Some(ListPage(facts, target.page.value, target.autoReplyOnly))
  }

  /** A navigation press over the intended pagination: the page drawn is
      always in range, and it agrees with the press as written whenever the
      filtered list is non-empty. */
  function HandleNavButtonIntended(facts: GuildFacts, customId: string): (v: Option<ListView>)
    ensures v.Some? <==> DecodeNav(customId).page.Some?
    ensures v.Some? ==> 0 <= v.value.page <= v.value.last
    ensures |Shown(facts, DecodeNav(customId).autoReplyOnly)| > 0 ==> v == HandleNavButton(facts, customId)
  {
    var target := DecodeNav(customId);
    if target.page.None? then None
    else Some(ListPageIntended(facts, target.page.value, target.autoReplyOnly))
  }

  /** A navigation id naming an existing page redraws exactly that page. */
  lemma NavTo(facts: GuildFacts, target: int, autoReplyOnly: bool)
    requires 0 <= target <= Max(LastPage(|Shown(facts, autoReplyOnly)|), 0)
    ensures HandleNavButton(facts, NavId(target, autoReplyOnly)) == Some(ListPage(facts, target, autoReplyOnly))
    ensures ListPage(facts, target, autoReplyOnly).page == target
  {
    NavIdRoundTrip(target, autoReplyOnly);
  }

  /** On a non-empty list every page up to the last one is drawn as itself
      and has entries. */
  lemma PageFilled(facts: GuildFacts, p: int, autoReplyOnly: bool)
    requires 0 <= p <= LastPage(|Shown(facts, autoReplyOnly)|)
    ensures ListPage(facts, p, autoReplyOnly).page == p
    ensures |ListPage(facts, p, autoReplyOnly).items| >= 1
  {
  }

  /** An enabled "next" button names the following page, keeping the
      filter. On a non-empty list that page exists and has entries; on an
      empty one, as written, it redraws the same empty page. */
  lemma NextButtonTurnsPage(facts: GuildFacts, requested: int, autoReplyOnly: bool)
    ensures var v := ListPage(facts, requested, autoReplyOnly);
      !v.nextDisabled ==>
        && v.nextId == NavId(v.page + 1, autoReplyOnly)
        && (|Shown(facts, autoReplyOnly)| > 0 ==>
              && ListPage(facts, v.page + 1, autoReplyOnly).page == v.page + 1
              && |ListPage(facts, v.page + 1, autoReplyOnly).items| >= 1)
        && (|Shown(facts, autoReplyOnly)| == 0 ==> ListPage(facts, v.page + 1, autoReplyOnly) == v)
  {
    var v := ListPage(facts, requested, autoReplyOnly);
    if |Shown(facts, autoReplyOnly)| == 0 {
      EmptyListIgnoresRequest(facts, requested, v.page + 1, autoReplyOnly);
      assert ListPage(facts, v.page + 1, autoReplyOnly) == v;
    } else {
      NextPageFilled(facts, v, requested, autoReplyOnly);
    }
  }

  /** The non-empty half of `NextButtonTurnsPage`. */
  lemma NextPageFilled(facts: GuildFacts, v: ListView, requested: int, autoReplyOnly: bool)
    requires |Shown(facts, autoReplyOnly)| > 0 && v == ListPage(facts, requested, autoReplyOnly)
    ensures !v.nextDisabled ==>
      && ListPage(facts, v.page + 1, autoReplyOnly).page == v.page + 1
      && |ListPage(facts, v.page + 1, autoReplyOnly).items| >= 1
  {
    if !v.nextDisabled {
      assert LastPage(|Shown(facts, autoReplyOnly)|) >= 1;
      PageFilled(facts, v.page + 1, autoReplyOnly);
    }
  }

  /** As written, every request for an empty list draws the same page. */
  lemma EmptyListIgnoresRequest(facts: GuildFacts, a: int, b: int, autoReplyOnly: bool)
    requires |Shown(facts, autoReplyOnly)| == 0
    ensures ListPage(facts, a, autoReplyOnly) == ListPage(facts, b, autoReplyOnly)
  {
    var list := Shown(facts, autoReplyOnly);
    assert ClampPage(a, -1) == 0 && ClampPage(b, -1) == 0;
    assert ListPage(facts, a, autoReplyOnly) == PageView(list, a, autoReplyOnly, -1) == PageView(list, b, autoReplyOnly, -1);
  }

  /** An enabled "previous" button names the preceding page, which exists
      and has entries; the filter is kept. */
  lemma PrevButtonTurnsPage(facts: GuildFacts, requested: int, autoReplyOnly: bool)
    ensures var v := ListPage(facts, requested, autoReplyOnly);
      !v.prevDisabled ==>
        && v.prevId == NavId(v.page - 1, autoReplyOnly)
        && ListPage(facts, v.page - 1, autoReplyOnly).page == v.page - 1
        && |ListPage(facts, v.page - 1, autoReplyOnly).items| >= 1
  {
    var v := ListPage(facts, requested, autoReplyOnly);
    if !v.prevDisabled {
      assert LastPage(|Shown(facts, autoReplyOnly)|) >= 1;
      PageFilled(facts, v.page - 1, autoReplyOnly);
    }
  }

  /** As written, the list of a guild without facts reads "page 1 / 0" and
      still carries the navigation row with "next" enabled; that button
      redraws the same page. */
  lemma EmptyListNavigation(autoReplyOnly: bool)
    ensures var v := ListPage([], 0, autoReplyOnly);
      && v.last + 1 == 0
      && v.navShown && !v.nextDisabled
      && DecodeNav(v.nextId) == NavTarget(Some(1), autoReplyOnly)
      && ListPage([], 1, autoReplyOnly) == v
  {
    NavIdRoundTrip(1, autoReplyOnly);
  }
}
