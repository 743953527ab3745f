/** The heading pass of the document renderer: every heading element of the
    converted HTML gets an `id` attribute and, when it has text, an entry in
    the outline; and the outline's HTML for the side panel. */
module Outline {
  import opened Text
  import opened HeadingIds

  /** One outline entry: the heading level 1..6, the heading's text and the
      id its element was given. */
  datatype OutlineItem = OutlineItem(level: nat, text: string, id: string)

  /** A match of the heading pattern: the element spans [start, end), its
      content [contentStart, contentEnd). */
  datatype Heading = Heading(start: nat, contentStart: nat, contentEnd: nat, end: nat)

  // ----- the pattern `/<(h[1-6])[^>]*>(.*?)<\/h[1-6]>/gi` -----

  /** `<` and the captured tag name `h1` .. `h6`, the `h` in either case. */
  predicate OpenAt(s: string, i: nat) {
    i + 3 <= |s| && s[i] == '<' && LowerAscii(s[i + 1]) == 'h' && '1' <= s[i + 2] <= '6'
  }

  /** A closing tag `</h1>` .. `</h6>`; it need not repeat the opening
      tag's level. */
  predicate CloseAt(s: string, c: nat) {
    c + 5 <= |s| && s[c] == '<' && s[c + 1] == '/' && LowerAscii(s[c + 2]) == 'h' && '1' <= s[c + 3] <= '6' && s[c + 4] == '>'
  }

  /** The lazy `(.*?)` from `k`: the first closing tag, provided no line
      terminator (which `.` does not match) comes before it. */
  function FindClose(s: string, k: nat): (r: Option<nat>)
    requires k <= |s|
    ensures r.Some? ==> k <= r.value && CloseAt(s, r.value)
    decreases |s| - k
  {
    if CloseAt(s, k) then Some(k)
    else if k == |s| || IsLineTerminator(s[k]) then None
    else FindClose(s, k + 1)
  }

  /** `FindClose` stops at the first closing tag when the text before it
      has no line terminator, and finds nothing exactly when a line
      terminator comes first or no closing tag follows. */
  lemma {:induction false} FindCloseFirst(s: string, k: nat)
    requires k <= |s|
    ensures var r := FindClose(s, k);
      && (r.Some? ==> forall c :: k <= c < r.value ==> !CloseAt(s, c) && !IsLineTerminator(s[c]))
      && (r.None? ==> forall c :: k <= c <= |s| && CloseAt(s, c) ==> exists t :: k <= t < c && IsLineTerminator(s[t]))
    decreases |s| - k
  {
    if !CloseAt(s, k) && k < |s| && !IsLineTerminator(s[k]) {
      FindCloseFirst(s, k + 1);
      var r := FindClose(s, k);
      if r.None? {
        forall c | k <= c <= |s| && CloseAt(s, c)
          ensures exists t :: k <= t < c && IsLineTerminator(s[t])
        {
          assert k + 1 <= c;
          var t :| k + 1 <= t < c && IsLineTerminator(s[t]);
        }
      }
    }
  }

  predicate Span(s: string, i: nat, h: Heading) {
    h.start == i && i + 4 <= h.contentStart <= h.contentEnd && h.end == h.contentEnd + 5 <= |s|
  }

  /** `h` is the match of the pattern at `i`: the opening tag name,
      attributes up to the first `>`, content without line terminators that
      contains no closing tag, and the first closing tag after it. */
  predicate IsHeadingAt(s: string, i: nat, h: Heading) {
    && Span(s, i, h) && OpenAt(s, i)
    && s[h.contentStart - 1] == '>'
    && (forall t :: i + 3 <= t < h.contentStart - 1 ==> s[t] != '>')
    && CloseAt(s, h.contentEnd)
    && (forall c :: h.contentStart <= c < h.contentEnd ==> !CloseAt(s, c) && !IsLineTerminator(s[c]))
  }

  /** The pattern tried at position `i`. */
  function HeadingAt(s: string, i: nat): (r: Option<Heading>)
    requires i <= |s|
    ensures r.Some? ==> Span(s, i, r.value) && OpenAt(s, i)
  {
    if !OpenAt(s, i) then None
    else match FindGt(s, i + 3)
      case None => None
      case Some(g) =>
        match FindClose(s, g + 1)
        case None => None
        case Some(c) => Some(Heading(i, g + 1, c, c + 5))
  }

  lemma {:induction false} HeadingAtParts(s: string, i: nat, g: nat, c: nat)
    requires OpenAt(s, i) && FindGt(s, i + 3) == Some(g)
    requires g + 1 <= |s| && FindClose(s, g + 1) == Some(c)
    ensures HeadingAt(s, i) == Some(Heading(i, g + 1, c, c + 5))
  {
  }

  /** `HeadingAt` finds exactly the match of the pattern at `i`. */
  lemma {:induction false} HeadingAtExact(s: string, i: nat, h: Heading)
    requires i <= |s|
    ensures HeadingAt(s, i) == Some(h) <==> IsHeadingAt(s, i, h)
  {
    if HeadingAt(s, i) == Some(h) {
      HeadingAtSound(s, i, h);
    }
    if IsHeadingAt(s, i, h) {
      HeadingAtComplete(s, i, h);
    }
  }

  lemma {:induction false} HeadingAtSound(s: string, i: nat, h: Heading)
    requires i <= |s| && HeadingAt(s, i) == Some(h)
    ensures IsHeadingAt(s, i, h)
  {
    FindGtFirst(s, i + 3);
    FindCloseFirst(s, h.contentStart);
  }

  lemma {:induction false} HeadingAtComplete(s: string, i: nat, h: Heading)
    requires i <= |s| && IsHeadingAt(s, i, h)
    ensures HeadingAt(s, i) == Some(h)
  {
    FindGtFirst(s, i + 3);
    assert FindGt(s, i + 3) == Some(h.contentStart - 1);
    FindCloseFirst(s, h.contentStart);
    assert FindClose(s, h.contentStart) == Some(h.contentEnd);
    HeadingAtParts(s, i, h.contentStart - 1, h.contentEnd);
  }

  /** The leftmost heading starting at or after `k`. */
  function FindHeading(s: string, k: nat): (r: Option<Heading>)
    requires k <= |s|
    ensures r.Some? ==> k <= r.value.start && Span(s, r.value.start, r.value) && OpenAt(s, r.value.start)
    decreases |s| - k
  {
    if HeadingAt(s, k).Some? then HeadingAt(s, k)
    else if k == |s| then None
    else FindHeading(s, k + 1)
  }

  /** `FindHeading` returns the leftmost match. */
  lemma {:induction false} FindHeadingLeftmost(s: string, k: nat)
    requires k <= |s| && FindHeading(s, k).Some?
    ensures HeadingAt(s, FindHeading(s, k).value.start) == FindHeading(s, k)
    ensures forall t :: k <= t < FindHeading(s, k).value.start ==> HeadingAt(s, t).None?
    decreases |s| - k
  {
    if HeadingAt(s, k).None? {
      FindHeadingLeftmost(s, k + 1);
      forall t | k < t < FindHeading(s, k).value.start
        ensures HeadingAt(s, t).None?
      {
        assert k + 1 <= t;
      }
    }
  }

  /** All headings the global replace visits from `k` on. */
  function Headings(s: string, k: nat): seq<Heading>
    requires k <= |s|
    decreases |s| - k
  {
    match FindHeading(s, k)
    case None => []
    case Some(h) => [h] + Headings(s, h.end)
  }

  // ----- the replace callback -----

  /** `parseInt(tag.charAt(1))`. */
  function Level(s: string, h: Heading): (r: nat)
    requires Span(s, h.start, h) && OpenAt(s, h.start)
    ensures 1 <= r <= 6
  {
    s[h.start + 2] as int - '0' as int
  }

  /** `content.replace(/<[^>]*>/g, '').trim()`. */
  function HeadingText(s: string, h: Heading): string
    requires Span(s, h.start, h)
  {
    Trim(StripTags(s[h.contentStart..h.contentEnd], 0))
  }

  /** The callback's return value: the opening tag with the captured name
      and only the new id attribute, the content unchanged, and a closing
      tag with the captured name. */
  function Replacement(s: string, h: Heading, id: string): string
    requires Span(s, h.start, h)
  {
    var tag := s[h.start + 1..h.start + 3];
    "<" + tag + " id=\"" + id + "\">" + s[h.contentStart..h.contentEnd] + "</" + tag + ">"
  }

  datatype Processed = Processed(html: string, outline: seq<OutlineItem>)

  /** The replace from `k` on with the heading counter at `counter`: text
      between headings is copied, each heading is replaced, and each heading
      with non-empty text adds an outline entry. The counter advances for
      every heading, with text or without. */
  function ProcessFrom(s: string, k: nat, counter: nat): Processed
    requires k <= |s|
    decreases |s| - k
  {
    match FindHeading(s, k)
    case None => Processed(s[k..], [])
    case Some(h) =>
      var rest := ProcessFrom(s, h.end, counter + 1);
      Processed(Piece(s, k, h, counter) + rest.html, Entry(s, h, counter) + rest.outline)
  }

  /** The text copied before a heading, and the heading's replacement. */
  function Piece(s: string, k: nat, h: Heading, counter: nat): string
    requires k <= h.start && Span(s, h.start, h)
  {
    s[k..h.start] + Replacement(s, h, HeadingId(HeadingText(s, h), counter))
  }

  /** The outline entry of a heading: none when its text is empty. */
  function Entry(s: string, h: Heading, counter: nat): seq<OutlineItem>
    requires Span(s, h.start, h) && OpenAt(s, h.start)
  {
    if HeadingText(s, h) != [] then [Item(s, h, counter)] else []
  }

  /** The outline entry a heading with text gives. */
  function Item(s: string, h: Heading, counter: nat): OutlineItem
    requires Span(s, h.start, h) && OpenAt(s, h.start)
  {
    var text := HeadingText(s, h);
    OutlineItem(Level(s, h), text, HeadingId(text, counter))
  }

  /** Lines 169-191 of render.ts: `html.replace` with a callback that pushes
      outline entries and increments `headingCounter`. */
  method ProcessDocumentHtmlAndExtractOutline(html: string) returns (processed: string, outline: seq<OutlineItem>)
    ensures Processed(processed, outline) == ProcessFrom(html, 0, 0)
  {
    outline := [];
    processed := [];
    var headingCounter := 0;
    var last := 0;
    var found := FindHeading(html, 0);
    while found.Some?
      invariant last <= |html|
      invariant found == FindHeading(html, last)
      invariant processed + ProcessFrom(html, last, headingCounter).html == ProcessFrom(html, 0, 0).html
      invariant outline + ProcessFrom(html, last, headingCounter).outline == ProcessFrom(html, 0, 0).outline
      decreases |html| - last
    {
      var h := found.value;
      var level := Level(html, h);
      var text := HeadingText(html, h);
      var id := HeadingId(text, headingCounter);
      var entry := if text != [] then [OutlineItem(level, text, id)] else [];
      var piece := html[last..h.start] + Replacement(html, h, id);
      assert piece == Piece(html, last, h, headingCounter);
      assert entry == Entry(html, h, headingCounter);
      AppendAssoc(processed, piece, ProcessFrom(html, h.end, headingCounter + 1).html);
      AppendAssoc(outline, entry, ProcessFrom(html, h.end, headingCounter + 1).outline);
      headingCounter := headingCounter + 1;
      outline := outline + entry;
      processed := processed + piece;
      last := h.end;
      found := FindHeading(html, last);
    }
    processed := processed + html[last..];
  }

  lemma {:induction false} AppendAssoc<T>(a: seq<T>, b: seq<T>, c: seq<T>)
    ensures a + (b + c) == (a + b) + c
  {
  }

  // ----- properties of the pass -----

  /** The counters at which the outline entries were made. */
  function EntryIndices(s: string, k: nat, counter: nat): seq<nat>
    requires k <= |s|
    decreases |s| - k
  {
    match FindHeading(s, k)
    case None => []
    case Some(h) =>
      (if HeadingText(s, h) != [] then [counter] else []) + EntryIndices(s, h.end, counter + 1)
  }

  /** There is one counter per outline entry and at most one outline entry
      per heading. */
  lemma {:induction false} OutlineLength(s: string, k: nat, counter: nat)
    requires k <= |s|
    ensures |EntryIndices(s, k, counter)| == |ProcessFrom(s, k, counter).outline| <= |Headings(s, k)|
    decreases |s| - k
  {
    match FindHeading(s, k)
    case None =>
    case Some(h) =>
      OutlineLength(s, h.end, counter + 1);
  }

  /** The counters of the entries stay at or above `counter` and below
      `counter` plus the number of headings. */
  lemma {:induction false} EntryIndicesRange(s: string, k: nat, counter: nat)
    requires k <= |s|
    ensures Within(EntryIndices(s, k, counter), counter, counter + |Headings(s, k)|)
    decreases |s| - k
  {
    match FindHeading(s, k)
    case None =>
    case Some(h) =>
      EntryIndicesRange(s, h.end, counter + 1);
      EntryIndicesStep(s, k, counter, h);
      var rest := EntryIndices(s, h.end, counter + 1);
      if HeadingText(s, h) != [] {
        PrependWithin(counter, rest, counter + |Headings(s, k)|);
      }
  }

  /** The counters of the entries increase strictly. */
  lemma {:induction false} EntryIndicesIncrease(s: string, k: nat, counter: nat)
    requires k <= |s|
    ensures Increasing(EntryIndices(s, k, counter))
    decreases |s| - k
  {
    match FindHeading(s, k)
    case None =>
    case Some(h) =>
      EntryIndicesIncrease(s, h.end, counter + 1);
      EntryIndicesRange(s, h.end, counter + 1);
      EntryIndicesStep(s, k, counter, h);
      if HeadingText(s, h) != [] {
        PrependIncreasing(counter, EntryIndices(s, h.end, counter + 1), counter + |Headings(s, k)|);
      }
  }

  lemma {:induction false} EntryIndicesStep(s: string, k: nat, counter: nat, h: Heading)
    requires k <= |s| && FindHeading(s, k) == Some(h)
    ensures EntryIndices(s, k, counter)
      == (if HeadingText(s, h) != [] then [counter] else []) + EntryIndices(s, h.end, counter + 1)
    ensures |Headings(s, k)| == 1 + |Headings(s, h.end)|
  {
  }

  predicate Within(ix: seq<nat>, lo: nat, hi: nat) {
    forall t :: 0 <= t < |ix| ==> lo <= ix[t] < hi
  }

  predicate Increasing(ix: seq<nat>) {
    forall t, u :: 0 <= t < u < |ix| ==> ix[t] < ix[u]
  }

  lemma {:induction false} PrependWithin(c: nat, ix: seq<nat>, hi: nat)
    requires c < hi && Within(ix, c + 1, hi)
    ensures Within([c] + ix, c, hi)
  {
    var r := [c] + ix;
    forall t | 0 < t < |r| ensures c <= r[t] < hi {
      assert r[t] == ix[t - 1];
    }
  }

  lemma {:induction false} PrependIncreasing(c: nat, ix: seq<nat>, hi: nat)
    requires Increasing(ix) && Within(ix, c + 1, hi)
    ensures Increasing([c] + ix)
  {
    var r := [c] + ix;
    forall t, u | 0 <= t < u < |r| ensures r[t] < r[u] {
      assert r[u] == ix[u - 1];
      if t > 0 {
        assert r[t] == ix[t - 1];
      }
    }
  }

  /** The t-th outline entry's id is the heading id of its text and of the
      counter of its heading. */
  lemma {:induction false} OutlineEntryIds(s: string, k: nat, counter: nat)
    requires k <= |s|
    ensures IdsMatch(ProcessFrom(s, k, counter).outline, EntryIndices(s, k, counter))
    decreases |s| - k
  {
    match FindHeading(s, k)
    case None =>
    case Some(h) =>
      OutlineEntryIds(s, h.end, counter + 1);
      EntryIndicesStep(s, k, counter, h);
      var ro, rix := ProcessFrom(s, h.end, counter + 1).outline, EntryIndices(s, h.end, counter + 1);
      assert ProcessFrom(s, k, counter).outline == Entry(s, h, counter) + ro;
      if HeadingText(s, h) != [] {
        PrependIdsMatch(Entry(s, h, counter)[0], counter, ro, rix);
      }
  }

  /** Each entry's id is the heading id of its text and of its counter. */
  predicate IdsMatch(o: seq<OutlineItem>, ix: seq<nat>) {
    |o| == |ix| && forall t :: 0 <= t < |ix| ==> o[t].id == HeadingId(o[t].text, ix[t])
  }

  lemma {:induction false} PrependIdsMatch(item: OutlineItem, c: nat, o: seq<OutlineItem>, ix: seq<nat>)
    requires item.id == HeadingId(item.text, c) && IdsMatch(o, ix)
    ensures IdsMatch([item] + o, [c] + ix)
  {
    var ro, rix := [item] + o, [c] + ix;
    forall t | 1 <= t < |rix| ensures ro[t].id == HeadingId(ro[t].text, rix[t]) {
      assert ro[t] == o[t - 1] && rix[t] == ix[t - 1];
    }
  }

  /** The text of a heading is trimmed and holds no `<...>` tag. */
  lemma {:induction false} HeadingTextClean(s: string, h: Heading)
    requires Span(s, h.start, h)
    ensures var text := HeadingText(s, h); Trim(text) == text && TagFree(text, 0)
  {
    var stripped := StripTags(s[h.contentStart..h.contentEnd], 0);
    TrimIdempotent(stripped);
    StripTagsTagFree(s[h.contentStart..h.contentEnd], 0);
    TrimSpec(stripped);
    TagFreeSlice(stripped, TrimOffset(stripped), TrimOffset(stripped) + |Trim(stripped)|, 0);
  }

  /** Every outline entry has a level in 1..6 and non-empty, trimmed text
      that holds no `<...>` tag. */
  lemma {:induction false} OutlineItemsClean(s: string, k: nat, counter: nat)
    requires k <= |s|
    ensures forall item :: item in ProcessFrom(s, k, counter).outline ==>
      1 <= item.level <= 6 && item.text != [] && Trim(item.text) == item.text && TagFree(item.text, 0)
    decreases |s| - k
  {
    match FindHeading(s, k)
    case None =>
    case Some(h) =>
      OutlineItemsClean(s, h.end, counter + 1);
      HeadingTextClean(s, h);
  }

  /** The ids of the outline are pairwise different, so every outline entry
      links to one heading. */
  lemma {:induction false} OutlineIdsDistinct(html: string)
    ensures var o := ProcessFrom(html, 0, 0).outline;
      forall t, u :: 0 <= t < u < |o| ==> o[t].id != o[u].id
  {
    var o, ix := ProcessFrom(html, 0, 0).outline, EntryIndices(html, 0, 0);
    OutlineEntryIds(html, 0, 0);
    EntryIndicesIncrease(html, 0, 0);
    forall t, u | 0 <= t < u < |o| ensures o[t].id != o[u].id {
      HeadingIdsDistinct(o[t].text, ix[t], o[u].text, ix[u]);
    }
  }

  // ----- the processed HTML and the outline, heading by heading -----

  /** `hs` is a run of heading elements in document order from `k` on: the
      first starts at or after `k` and each starts at or after the end of
      the one before. */
  predicate Chain(s: string, k: nat, hs: seq<Heading>) {
    && k <= |s|
    && (forall t :: 0 <= t < |hs| ==> Span(s, hs[t].start, hs[t]) && OpenAt(s, hs[t].start))
    && (hs != [] ==> k <= hs[0].start)
    && (forall t :: 0 <= t < |hs| - 1 ==> hs[t].end <= hs[t + 1].start)
  }

  /** Where the text before heading `t` of the run starts; for `t == |hs|`,
      where the text after the last heading starts. */
  function Before(k: nat, hs: seq<Heading>, t: nat): nat
    requires t <= |hs|
  {
    if t == 0 then k else hs[t - 1].end
  }

  lemma {:induction false} ChainTail(s: string, k: nat, hs: seq<Heading>)
    requires Chain(s, k, hs) && hs != []
    ensures Chain(s, hs[0].end, hs[1..])
    ensures Before(k, hs, |hs|) == Before(hs[0].end, hs[1..], |hs| - 1)
  {
    var tail := hs[1..];
    forall t | 0 <= t < |tail| ensures Span(s, tail[t].start, tail[t]) && OpenAt(s, tail[t].start) {
      assert tail[t] == hs[t + 1];
    }
    forall t | 0 <= t < |tail| - 1 ensures tail[t].end <= tail[t + 1].start {
      assert tail[t] == hs[t + 1] && tail[t + 1] == hs[t + 2];
    }
    if tail != [] {
      assert hs[0].end <= hs[1].start;
      assert tail[|tail| - 1] == hs[|hs| - 1];
    }
  }

  /** The headings the replace visits form a run in document order. */
  lemma {:induction false} HeadingsChain(s: string, k: nat)
    requires k <= |s|
    ensures Chain(s, k, Headings(s, k))
    decreases |s| - k
  {
    match FindHeading(s, k)
    case None =>
    case Some(h) =>
      HeadingsChain(s, h.end);
      var rest := Headings(s, h.end);
      var hs := [h] + rest;
      assert Headings(s, k) == hs;
      forall t | 0 <= t < |hs| ensures Span(s, hs[t].start, hs[t]) && OpenAt(s, hs[t].start) {
        if t > 0 {
          assert hs[t] == rest[t - 1];
        }
      }
      forall t | 0 <= t < |hs| - 1 ensures hs[t].end <= hs[t + 1].start {
        assert hs[t + 1] == rest[t];
        if t > 0 {
          assert hs[t] == rest[t - 1];
        }
      }
  }

  /** A heading of the run, where the text copied before it starts, and the
      counter its id is made with. */
  datatype Slot = Slot(from: nat, heading: Heading, counter: nat)

  /** The slots of a run: heading `t` follows the text from the end of
      heading `t - 1` (or from `k`), and gets counter `counter + t`. */
  function Slots(k: nat, hs: seq<Heading>, counter: nat): seq<Slot>
    decreases |hs|
  {
    if hs == [] then [] else [Slot(k, hs[0], counter)] + Slots(hs[0].end, hs[1..], counter + 1)
  }

  lemma {:induction false} SlotsAt(k: nat, hs: seq<Heading>, counter: nat)
    ensures |Slots(k, hs, counter)| == |hs|
    ensures forall t :: 0 <= t < |hs| ==> Slots(k, hs, counter)[t] == Slot(Before(k, hs, t), hs[t], counter + t)
    decreases |hs|
  {
    if hs != [] {
      var tail := hs[1..];
      SlotsAt(hs[0].end, tail, counter + 1);
      var sl, rest := Slots(k, hs, counter), Slots(hs[0].end, tail, counter + 1);
      forall t | 1 <= t < |hs| ensures sl[t] == Slot(Before(k, hs, t), hs[t], counter + t) {
        assert sl[t] == rest[t - 1] && tail[t - 1] == hs[t];
      }
    }
  }

  /** Every slot's heading is a heading element that starts at or after the
      slot's copied text. */
  predicate SlotsOk(s: string, slots: seq<Slot>) {
    forall i :: 0 <= i < |slots| ==>
      && slots[i].from <= slots[i].heading.start
      && Span(s, slots[i].heading.start, slots[i].heading)
      && OpenAt(s, slots[i].heading.start)
  }

  lemma {:induction false} ChainSlots(s: string, k: nat, hs: seq<Heading>, counter: nat)
    requires Chain(s, k, hs)
    ensures SlotsOk(s, Slots(k, hs, counter))
  {
    SlotsAt(k, hs, counter);
    var sl := Slots(k, hs, counter);
    forall i | 0 <= i < |sl| ensures sl[i].from <= sl[i].heading.start {
      if i > 0 {
        assert hs[i - 1].end <= hs[i].start;
      }
    }
  }

  lemma {:induction false} SlotsOkTail(s: string, slots: seq<Slot>)
    requires SlotsOk(s, slots) && slots != []
    ensures SlotsOk(s, slots[1..])
  {
    forall i | 0 <= i < |slots| - 1 ensures slots[1..][i] == slots[i + 1] {
    }
  }

  /** The processed HTML of a run of slots: for each, its copied text and
      then its heading replaced with the id of the heading's text and of the
      slot's counter. */
  function Render(s: string, slots: seq<Slot>): string
    requires SlotsOk(s, slots)
    decreases |slots|
  {
    if slots == [] then []
    else
      SlotsOkTail(s, slots);
      Piece(s, slots[0].from, slots[0].heading, slots[0].counter) + Render(s, slots[1..])
  }

  /** The outline entries of a run of slots, one per heading with text. */
  function Entries(s: string, slots: seq<Slot>): seq<OutlineItem>
    requires SlotsOk(s, slots)
    decreases |slots|
  {
    if slots == [] then []
    else
      SlotsOkTail(s, slots);
      Entry(s, slots[0].heading, slots[0].counter) + Entries(s, slots[1..])
  }

  /** The slots of a run that starts with heading `h`. */
  lemma {:induction false} SlotsStep(s: string, k: nat, h: Heading, counter: nat)
    requires k <= |s| && FindHeading(s, k) == Some(h)
    ensures Chain(s, k, Headings(s, k)) && Chain(s, h.end, Headings(s, h.end))
    ensures var hs := Headings(s, k);
      && Slots(k, hs, counter) == [Slot(k, h, counter)] + Slots(h.end, Headings(s, h.end), counter + 1)
      && Before(k, hs, |hs|) == Before(h.end, Headings(s, h.end), |hs| - 1)
  {
    HeadingsChain(s, k);
    var hs := Headings(s, k);
    assert hs[0] == h && hs[1..] == Headings(s, h.end);
    ChainTail(s, k, hs);
  }

  /** The replace from `k` on, slot by slot: the processed HTML. */
  lemma {:induction false} HtmlBySlots(s: string, k: nat, counter: nat)
    requires k <= |s|
    ensures Chain(s, k, Headings(s, k)) && SlotsOk(s, Slots(k, Headings(s, k), counter))
    ensures var hs := Headings(s, k);
      ProcessFrom(s, k, counter).html == Render(s, Slots(k, hs, counter)) + s[Before(k, hs, |hs|)..]
    decreases |s| - k
  {
    HeadingsChain(s, k);
    ChainSlots(s, k, Headings(s, k), counter);
    match FindHeading(s, k)
    case None =>
    case Some(h) =>
      HtmlBySlots(s, h.end, counter + 1);
      HtmlStep(s, k, h, counter);
  }

  lemma {:induction false} HtmlStep(s: string, k: nat, h: Heading, counter: nat)
    requires k <= |s| && FindHeading(s, k) == Some(h)
    requires Chain(s, h.end, Headings(s, h.end)) && SlotsOk(s, Slots(h.end, Headings(s, h.end), counter + 1))
    requires var tail := Headings(s, h.end);
      ProcessFrom(s, h.end, counter + 1).html == Render(s, Slots(h.end, tail, counter + 1)) + s[Before(h.end, tail, |tail|)..]
    requires Chain(s, k, Headings(s, k)) && SlotsOk(s, Slots(k, Headings(s, k), counter))
    ensures var hs := Headings(s, k);
      ProcessFrom(s, k, counter).html == Render(s, Slots(k, hs, counter)) + s[Before(k, hs, |hs|)..]
  {
    SlotsStep(s, k, h, counter);
    var hs, tail := Headings(s, k), Headings(s, h.end);
    var slots, rest := Slots(k, hs, counter), Slots(h.end, tail, counter + 1);
    var piece, after := Piece(s, k, h, counter), s[Before(k, hs, |hs|)..];
    RenderStep(s, slots);
    assert slots[1..] == rest;
    AppendAssoc(piece, Render(s, rest), after);
  }

  lemma {:induction false} RenderStep(s: string, slots: seq<Slot>)
    requires SlotsOk(s, slots) && slots != []
    ensures SlotsOk(s, slots[1..])
    ensures Render(s, slots) == Piece(s, slots[0].from, slots[0].heading, slots[0].counter) + Render(s, slots[1..])
  {
    SlotsOkTail(s, slots);
  }

  /** The replace from `k` on, slot by slot: the outline. */
  lemma {:induction false} OutlineBySlots(s: string, k: nat, counter: nat)
    requires k <= |s|
    ensures Chain(s, k, Headings(s, k)) && SlotsOk(s, Slots(k, Headings(s, k), counter))
    ensures ProcessFrom(s, k, counter).outline == Entries(s, Slots(k, Headings(s, k), counter))
    decreases |s| - k
  {
    HeadingsChain(s, k);
    ChainSlots(s, k, Headings(s, k), counter);
    match FindHeading(s, k)
    case None =>
    case Some(h) =>
      OutlineBySlots(s, h.end, counter + 1);
      SlotsStep(s, k, h, counter);
      var slots, rest := Slots(k, Headings(s, k), counter), Slots(h.end, Headings(s, h.end), counter + 1);
      assert slots[1..] == rest;
  }

  /** Lines 175-187 of render.ts, from the start of the document: the
      processed HTML is, for each heading `t` in document order, the text
      since the end of heading `t - 1` copied unchanged and then heading `t`
      replaced with the id of its text and of counter `t`; then the text
      after the last heading. The outline holds, in the same order, the
      entry of each heading with text. */
  lemma {:induction false} ProcessedHtml(s: string)
    ensures Chain(s, 0, Headings(s, 0))
    ensures var hs := Headings(s, 0);
      var slots := Slots(0, hs, 0);
      && |slots| == |hs|
      && (forall t :: 0 <= t < |hs| ==> slots[t] == Slot(Before(0, hs, t), hs[t], t))
      && SlotsOk(s, slots)
      && ProcessFrom(s, 0, 0) == Processed(Render(s, slots) + s[Before(0, hs, |hs|)..], Entries(s, slots))
  {
    HtmlBySlots(s, 0, 0);
    OutlineBySlots(s, 0, 0);
    SlotsAt(0, Headings(s, 0), 0);
  }

  /** No heading match starts in the text that is copied unchanged. */
  lemma {:induction false} GapsHaveNoHeading(s: string, k: nat)
    requires k <= |s|
    ensures Chain(s, k, Headings(s, k))
    ensures var hs := Headings(s, k);
      && (forall t, i :: 0 <= t < |hs| && Before(k, hs, t) <= i < hs[t].start ==> HeadingAt(s, i).None?)
      && (forall i :: Before(k, hs, |hs|) <= i <= |s| ==> HeadingAt(s, i).None?)
    decreases |s| - k
  {
    HeadingsChain(s, k);
    match FindHeading(s, k)
    case None =>
      forall i | k <= i <= |s| ensures HeadingAt(s, i).None? {
        FindHeadingNone(s, k, i);
      }
    case Some(h) =>
      GapsHaveNoHeading(s, h.end);
      GapsStep(s, k, h);
  }

  lemma {:induction false} GapsStep(s: string, k: nat, h: Heading)
    requires k <= |s| && FindHeading(s, k) == Some(h)
    requires Chain(s, h.end, Headings(s, h.end))
    requires var tail := Headings(s, h.end);
      && (forall t, i :: 0 <= t < |tail| && Before(h.end, tail, t) <= i < tail[t].start ==> HeadingAt(s, i).None?)
      && (forall i :: Before(h.end, tail, |tail|) <= i <= |s| ==> HeadingAt(s, i).None?)
    ensures Chain(s, k, Headings(s, k))
    ensures var hs := Headings(s, k);
      && (forall t, i :: 0 <= t < |hs| && Before(k, hs, t) <= i < hs[t].start ==> HeadingAt(s, i).None?)
      && (forall i :: Before(k, hs, |hs|) <= i <= |s| ==> HeadingAt(s, i).None?)
  {
    HeadingsChain(s, k);
    FindHeadingLeftmost(s, k);
    var hs := Headings(s, k);
    ChainTail(s, k, hs);
    var tail := hs[1..];
    assert hs[0] == h && tail == Headings(s, h.end);
    forall t, i | 0 <= t < |hs| && Before(k, hs, t) <= i < hs[t].start ensures HeadingAt(s, i).None? {
      if t > 0 {
        assert tail[t - 1] == hs[t] && Before(h.end, tail, t - 1) == Before(k, hs, t);
      }
    }
  }

  /** When the search from `k` finds nothing, no heading starts at or after `k`. */
  lemma {:induction false} FindHeadingNone(s: string, k: nat, i: nat)
    requires k <= i <= |s| && FindHeading(s, k).None?
    ensures HeadingAt(s, i).None?
    decreases i - k
  {
    if k < i {
      FindHeadingNone(s, k + 1, i);
    }
  }

  /** `ix` holds exactly the counters `counter + t` of the positions `t`
      where `flags` is set. */
  ghost predicate Marks(flags: seq<bool>, counter: nat, ix: seq<nat>) {
    forall x: nat :: x in ix <==> counter <= x < counter + |flags| && flags[x - counter]
  }

  lemma {:induction false} PrependMarks(b: bool, flags: seq<bool>, counter: nat, ix: seq<nat>)
    requires Marks(flags, counter + 1, ix)
    ensures Marks([b] + flags, counter, (if b then [counter] else []) + ix)
  {
    var fs, rx := [b] + flags, (if b then [counter] else []) + ix;
    forall x: nat ensures x in rx <==> counter <= x < counter + |fs| && fs[x - counter] {
      if counter < x < counter + |fs| {
        assert fs[x - counter] == flags[x - (counter + 1)];
      }
    }
  }

  /** Whether each slot's heading has non-empty text. */
  function TextFlags(s: string, slots: seq<Slot>): seq<bool>
    requires SlotsOk(s, slots)
    decreases |slots|
  {
    if slots == [] then []
    else
      SlotsOkTail(s, slots);
      [HeadingText(s, slots[0].heading) != []] + TextFlags(s, slots[1..])
  }

  lemma {:induction false} TextFlagsAt(s: string, slots: seq<Slot>)
    requires SlotsOk(s, slots)
    ensures |TextFlags(s, slots)| == |slots|
    ensures forall i :: 0 <= i < |slots| ==> TextFlags(s, slots)[i] == (HeadingText(s, slots[i].heading) != [])
    decreases |slots|
  {
    if slots != [] {
      SlotsOkTail(s, slots);
      TextFlagsAt(s, slots[1..]);
      var fs, rest := TextFlags(s, slots), TextFlags(s, slots[1..]);
      forall i | 1 <= i < |slots| ensures fs[i] == (HeadingText(s, slots[i].heading) != []) {
        assert fs[i] == rest[i - 1] && slots[1..][i - 1] == slots[i];
      }
    }
  }

  lemma {:induction false} EntryIndicesMarks(s: string, k: nat, counter: nat)
    requires k <= |s|
    ensures Chain(s, k, Headings(s, k)) && SlotsOk(s, Slots(k, Headings(s, k), counter))
    ensures Marks(TextFlags(s, Slots(k, Headings(s, k), counter)), counter, EntryIndices(s, k, counter))
    decreases |s| - k
  {
    HeadingsChain(s, k);
    ChainSlots(s, k, Headings(s, k), counter);
    match FindHeading(s, k)
    case None =>
    case Some(h) =>
      EntryIndicesMarks(s, h.end, counter + 1);
      EntryIndicesStep(s, k, counter, h);
      var hs := Headings(s, k);
      var tail := hs[1..];
      assert hs[0] == h && tail == Headings(s, h.end);
      var slots, rest := Slots(k, hs, counter), Slots(h.end, tail, counter + 1);
      assert slots[0] == Slot(k, h, counter) && slots[1..] == rest;
      PrependMarks(HeadingText(s, h) != [], TextFlags(s, rest), counter, EntryIndices(s, h.end, counter + 1));
  }

  /** The heading counters recorded in the outline are exactly the
      positions, in document order, of the headings with non-empty text. */
  lemma {:induction false} EntryIndicesExact(s: string)
    ensures Chain(s, 0, Headings(s, 0))
    ensures var hs := Headings(s, 0);
      forall x: nat :: x in EntryIndices(s, 0, 0) <==> x < |hs| && HeadingText(s, hs[x]) != []
  {
    EntryIndicesMarks(s, 0, 0);
    var hs := Headings(s, 0);
    var slots := Slots(0, hs, 0);
    SlotsAt(0, hs, 0);
    TextFlagsAt(s, slots);
  }

  /** HTML without a heading match passes through unchanged and gives an
      empty outline. */
  lemma {:induction false} NoHeadingsUnchanged(html: string)
    requires forall i :: 0 <= i <= |html| ==> HeadingAt(html, i).None?
    ensures ProcessFrom(html, 0, 0) == Processed(html, [])
  {
    if FindHeading(html, 0).Some? {
      FindHeadingLeftmost(html, 0);
      assert false;
    }
    assert ProcessFrom(html, 0, 0) == Processed(html[0..], []);
    assert html[0..] == html;
  }

  // ----- the outline panel -----

  const Placeholder: string := "<p style=\"opacity: 0.7; font-style: italic;\">No headings found</p>"

  const ItemOpen: string := "<div class=\"docx-outline-item level-"

  /** The `map` callback of lines 208-212 of render.ts. */
  function ItemHtml(item: OutlineItem): string {
    ItemOpen + Decimal(item.level) + "\" data-target=\"" + item.id + "\">\n                "
      + item.text + "\n            </div>"
  }

  /** `outline.map(...)`. */
  function ItemsHtml(outline: seq<OutlineItem>): (r: seq<string>)
    ensures |r| == |outline| && forall t :: 0 <= t < |r| ==> r[t] == ItemHtml(outline[t])
  {
    seq(|outline|, t requires 0 <= t < |outline| => ItemHtml(outline[t]))
  }

  /** `.join('')`. */
  function Join(parts: seq<string>): string {
    if parts == [] then [] else parts[0] + Join(parts[1..])
  }

  /** Lines 202-215 of render.ts: the placeholder appears exactly when the
      outline is empty, since every item starts with `<d` and the
      placeholder with `<p`. */
  function GenerateOutlineHtml(outline: seq<OutlineItem>): (r: string)
    ensures r == Placeholder <==> outline == []
  {
    if outline == [] then Placeholder
    else
      var parts := ItemsHtml(outline);
      ItemStart(outline[0]);
      PlaceholderStart();
      assert Join(parts) == parts[0] + Join(parts[1..]);
      Join(parts)
  }

  /** Every item starts with `<d`, where the placeholder starts with `<p`. */
  lemma {:induction false} ItemStart(item: OutlineItem)
    ensures |ItemHtml(item)| >= 2 && ItemHtml(item)[1] == 'd'
  {
    assert ItemHtml(item)[1] == ItemOpen[1];
  }

  lemma {:induction false} PlaceholderStart()
    ensures |Placeholder| >= 2 && Placeholder[1] == 'p'
  {
    var open := "<p style=\"opacity: 0.7; font-style: italic;\">";
    assert Placeholder == open + "No headings found</p>";
    assert open[1] == 'p';
  }

  /** Joining distributes over concatenation. */
  lemma {:induction false} JoinAppend(a: seq<string>, b: seq<string>)
    ensures Join(a + b) == Join(a) + Join(b)
  {
    if a != [] {
      JoinAppend(a[1..], b);
      assert (a + b)[1..] == a[1..] + b;
      assert (a + b)[0] == a[0];
    } else {
      assert a + b == b;
    }
  }

  /** The panel lists the entries in outline order, each once: the HTML of
      two non-empty outlines one after the other is the HTML of the first
      followed by that of the second. */
  lemma {:induction false} OutlineHtmlInOrder(a: seq<OutlineItem>, b: seq<OutlineItem>)
    requires a != [] && b != []
    ensures GenerateOutlineHtml(a + b) == GenerateOutlineHtml(a) + GenerateOutlineHtml(b)
  {
    assert ItemsHtml(a + b) == ItemsHtml(a) + ItemsHtml(b);
    JoinAppend(ItemsHtml(a), ItemsHtml(b));
  }
}
