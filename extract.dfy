/** Block extraction for the comparison view: the global, case-insensitive
    pattern `<(p|h[1-6]|li|div|blockquote)[^>]*>([\s\S]*?)<\/\1>` is run
    over the rendered HTML, and each match contributes its inner text with
    tags removed and whitespace trimmed. The pattern is modelled by what it
    can match at one position (the five tag names begin with different
    letters, the attributes run to the first `>`, the lazy body stops at the
    first closing tag with the same name), not by a regular expression
    engine. */
module BlockExtract {
  import opened Text

  /** One match: the `<` at `start`, the captured tag name in
      `[start + 1, nameEnd)`, the body in `[contentStart, contentEnd)`, and
      the closing tag ending just before `end`. */
  datatype Match = Match(start: nat, nameEnd: nat, contentStart: nat, contentEnd: nat, end: nat)

  /** The alternatives of `p|h[1-6]|li|div|blockquote`, in the order the
      alternation tries them. */
  const BlockNames: seq<string> := ["p", "h1", "h2", "h3", "h4", "h5", "h6", "li", "div", "blockquote"]

  /** The length of the tag name captured right after the `<` at `i`,
      decided by its first letter (the five names begin with different
      letters, and `h` takes one digit from 1 to 6). */
  function NameLength(s: string, i: nat): (r: Option<nat>)
    ensures r.Some? ==> 1 <= r.value <= 10 && i + 1 + r.value <= |s|
  {
    if i + 1 >= |s| then None
    else
      var c := LowerAscii(s[i + 1]);
      if c == 'p' then Some(1)
      else if c == 'h' then (if i + 2 < |s| && '1' <= s[i + 2] <= '6' then Some(2) else None)
      else if c == 'l' then (if i + 2 < |s| && LowerAscii(s[i + 2]) == 'i' then Some(2) else None)
      else if c == 'd' then (if i + 3 < |s| && LowerAscii(s[i + 2]) == 'i' && LowerAscii(s[i + 3]) == 'v' then Some(3) else None)
      else if c == 'b' then (if LockquoteAt(s, i + 2) then Some(10) else None)
      else None
  }

  /** The letters `lockquote` at `k`, compared case-insensitively. */
  predicate LockquoteAt(s: string, k: nat) {
    && k + 9 <= |s|
    && LowerAscii(s[k]) == 'l' && LowerAscii(s[k + 1]) == 'o' && LowerAscii(s[k + 2]) == 'c'
    && LowerAscii(s[k + 3]) == 'k' && LowerAscii(s[k + 4]) == 'q' && LowerAscii(s[k + 5]) == 'u'
    && LowerAscii(s[k + 6]) == 'o' && LowerAscii(s[k + 7]) == 't' && LowerAscii(s[k + 8]) == 'e'
  }

  /** At most one alternative can match at a position, so the order in
      which the alternation tries them does not matter: `NameLength` is the
      length of the alternative that matches after the `<` at `i` ... */
  lemma {:induction false} NameLengthAlternation(s: string, i: nat)
    ensures forall n :: n in BlockNames && MatchesAt(s, i + 1, n) ==> NameLength(s, i) == Some(|n|)
  {
    forall n | n in BlockNames && MatchesAt(s, i + 1, n)
      ensures NameLength(s, i) == Some(|n|)
    {
      NameLengthOf(s, i, n);
    }
  }

  /** ... and it is `None` when none of them does. */
  lemma {:induction false} NameLengthFound(s: string, i: nat)
    requires NameLength(s, i).Some?
    ensures exists n :: n in BlockNames && MatchesAt(s, i + 1, n)
  {
    var c := LowerAscii(s[i + 1]);
    if c == 'p' {
      var w := BlockNames[0];
      assert w in BlockNames && MatchesAt(s, i + 1, w) by {
        assert w == "p";
      }
    } else if c == 'h' {
      var w := ['h', s[i + 2]];
      assert w in BlockNames && MatchesAt(s, i + 1, w) by {
        assert w[1..] == [s[i + 2]];
        HeadingNames(s[i + 2]);
      }
    } else if c == 'l' {
      var w := BlockNames[7];
      assert w in BlockNames && MatchesAt(s, i + 1, w) by {
        assert w == "li" && w[1..] == "i";
      }
    } else if c == 'd' {
      var w := BlockNames[8];
      assert w in BlockNames && MatchesAt(s, i + 1, w) by {
        assert w == "div" && w[1..] == "iv" && w[2..] == "v";
      }
    } else {
      var w := BlockNames[9];
      assert w in BlockNames && MatchesAt(s, i + 1, w) by {
        BlockquoteLetters(s, i + 1);
      }
    }
  }

  /** `h1` to `h6` are alternatives. */
  lemma {:induction false} HeadingNames(d: char)
    requires '1' <= d <= '6'
    ensures ['h', d] in BlockNames
  {
    var h := ['h', d];
    if d == '1' { assert h == BlockNames[1]; }
    else if d == '2' { assert h == BlockNames[2]; }
    else if d == '3' { assert h == BlockNames[3]; }
    else if d == '4' { assert h == BlockNames[4]; }
    else if d == '5' { assert h == BlockNames[5]; }
    else { assert h == BlockNames[6]; }
  }

  /** The alternative `n` matching after the `<` at `i` is the one
      `NameLength` measures. */
  lemma {:induction false} NameLengthOf(s: string, i: nat, n: string)
    requires n in BlockNames && MatchesAt(s, i + 1, n)
    ensures NameLength(s, i) == Some(|n|)
  {
    MatchesAtMeaning(s, i + 1, n);
    assert i + 1 < |s| && LowerAscii(s[i + 1]) == LowerAscii(n[0]);
    if n == "p" {
      assert LowerAscii(s[i + 1]) == 'p';
    } else if n[0] == 'h' {
      assert |n| == 2 && '1' <= n[1] <= '6';
      assert LowerAscii(s[i + 2]) == LowerAscii(n[1]) == n[1];
    } else if n == "li" {
      assert LowerAscii(s[i + 1]) == 'l';
    } else if n == "div" {
      assert LowerAscii(s[i + 1]) == 'd';
    } else {
      assert n == "blockquote";
      BlockquoteLetters(s, i + 1);
    }
  }

  /** `blockquote` at `k` is a `b` followed by `lockquote`. */
  lemma {:induction false} BlockquoteLetters(s: string, k: nat)
    ensures MatchesAt(s, k, "blockquote") <==> k < |s| && LowerAscii(s[k]) == 'b' && LockquoteAt(s, k + 1)
  {
    var w := "blockquote";
    MatchesAtMeaning(s, k, w);
    assert w[0] == 'b' && w[1] == 'l' && w[2] == 'o' && w[3] == 'c' && w[4] == 'k';
    assert w[5] == 'q' && w[6] == 'u' && w[7] == 'o' && w[8] == 't' && w[9] == 'e';
    if k < |s| && LowerAscii(s[k]) == 'b' && LockquoteAt(s, k + 1) {
      forall t | 0 <= t < |w| ensures LowerAscii(s[k + t]) == LowerAscii(w[t]) {
        if t > 0 {
          assert s[k + t] == s[k + 1 + (t - 1)];
        }
      }
    }
  }

  /** The `len` characters at `x` equal those at `a`, letters compared
      case-insensitively. */
  predicate SameAt(s: string, x: nat, a: nat, len: nat)
    decreases len
  {
    x + len <= |s| && a + len <= |s| && (len == 0 || (LowerAscii(s[x]) == LowerAscii(s[a]) && SameAt(s, x + 1, a + 1, len - 1)))
  }

  /** `SameAt` compares the two runs character by character. */
  lemma {:induction false} SameAtMeaning(s: string, x: nat, a: nat, len: nat)
    ensures SameAt(s, x, a, len) <==>
      x + len <= |s| && a + len <= |s| && forall t :: x <= t < x + len ==> LowerAscii(s[t]) == LowerAscii(s[t - x + a])
    decreases len
  {
    if len > 0 && x + len <= |s| && a + len <= |s| {
      SameAtMeaning(s, x + 1, a + 1, len - 1);
      if forall t :: x <= t < x + len ==> LowerAscii(s[t]) == LowerAscii(s[t - x + a]) {
        assert LowerAscii(s[x]) == LowerAscii(s[a]);
        forall t | x + 1 <= t < x + 1 + (len - 1)
          ensures LowerAscii(s[t]) == LowerAscii(s[t - (x + 1) + (a + 1)])
        {
          assert t - (x + 1) + (a + 1) == t - x + a;
        }
      }
    }
  }

  /** The backreference `<\/\1>` matches at `c`, where the group captured
      the name between the `<` at `o` and `e`: `</`, that name
      (case-insensitively) and `>`. */
  predicate CloseAt(s: string, c: nat, o: nat, e: nat) {
    && o < e && c + (e - o) + 2 <= |s|
    && s[c] == '<' && s[c + 1] == '/' && SameAt(s, c + 2, o + 1, e - o - 1) && s[c + 1 + (e - o)] == '>'
  }

  /** The lazy body `[\s\S]*?` ends at the first closing tag at or after `k`. */
  function FindClose(s: string, k: nat, o: nat, e: nat): (r: Option<nat>)
    requires k <= |s|
    ensures r.Some? ==> o < e && k <= r.value && r.value + (e - o) + 2 <= |s|
    decreases |s| - k
  {
    if CloseAt(s, k, o, e) then Some(k)
    else if k == |s| then None
    else FindClose(s, k + 1, o, e)
  }

  /** `FindClose` finds the first closing tag at or after `k`, and finds
      none exactly when there is none. */
  lemma {:induction false} FindCloseFirst(s: string, k: nat, o: nat, e: nat)
    requires k <= |s|
    ensures var r := FindClose(s, k, o, e);
      && (r.Some? ==> CloseAt(s, r.value, o, e) && forall c :: k <= c < r.value ==> !CloseAt(s, c, o, e))
      && (r.None? ==> forall c :: k <= c <= |s| ==> !CloseAt(s, c, o, e))
    decreases |s| - k
  {
    if !CloseAt(s, k, o, e) && k < |s| {
      FindCloseFirst(s, k + 1, o, e);
      forall c | k < c <= |s| && FindClose(s, k, o, e).None?
        ensures !CloseAt(s, c, o, e)
      {
        assert k + 1 <= c;
      }
      forall c | k < c && FindClose(s, k, o, e).Some? && c < FindClose(s, k, o, e).value
        ensures !CloseAt(s, c, o, e)
      {
        assert k + 1 <= c;
      }
    }
  }

  /** The positions of a match at `i` are in order within `s`; the shortest
      match, `<p></p>`, has seven characters. */
  predicate Span(s: string, i: nat, m: Match) {
    m.start == i && i + 1 < m.nameEnd < m.contentStart <= m.contentEnd < m.end <= |s| && m.end - i >= 7
  }

  /** `m` is a match of the pattern starting at `i`: a `<`, one of the five
      tag names, attributes up to the first `>`, a body containing no closing
      tag with the captured name, and that closing tag. */
  predicate IsMatchAt(s: string, i: nat, m: Match) {
    && Span(s, i, m) && s[i] == '<'
    && NameLength(s, i) == Some(m.nameEnd - (i + 1))
    && s[m.contentStart - 1] == '>'
    && (forall t :: m.nameEnd <= t < m.contentStart - 1 ==> s[t] != '>')
    && CloseAt(s, m.contentEnd, i, m.nameEnd)
    && (forall c :: m.contentStart <= c < m.contentEnd ==> !CloseAt(s, c, i, m.nameEnd))
    && m.end == m.contentEnd + (m.nameEnd - (i + 1)) + 3
  }

  /** The whole pattern tried at position `i`. */
  function MatchAt(s: string, i: nat): (r: Option<Match>)
    requires i <= |s|
    ensures r.Some? ==> Span(s, i, r.value)
  {
    if i == |s| || s[i] != '<' then None
    else match NameLength(s, i)
      case None => None
      case Some(len) =>
        var nameEnd := i + 1 + len;
        match FindGt(s, nameEnd)
        case None => None
        case Some(gt) =>
          match FindClose(s, gt + 1, i, nameEnd)
          case None => None
          case Some(c) =>
            Some(Match(i, nameEnd, gt + 1, c, c + len + 3))
  }

  /** What `MatchAt` finds is a match of the pattern ... */
  lemma {:induction false} MatchAtSound(s: string, i: nat, m: Match)
    requires i <= |s| && MatchAt(s, i) == Some(m)
    ensures IsMatchAt(s, i, m)
  {
    var len := NameLength(s, i).value;
    assert m.nameEnd == i + 1 + len;
    assert FindGt(s, m.nameEnd) == Some(m.contentStart - 1);
    FindGtFirst(s, m.nameEnd);
    assert FindClose(s, m.contentStart, i, m.nameEnd) == Some(m.contentEnd);
    FindCloseFirst(s, m.contentStart, i, m.nameEnd);
  }

  /** `MatchAt` assembled from its three searches. */
  lemma {:induction false} MatchAtParts(s: string, i: nat, len: nat, g: nat, c: nat)
    requires i < |s| && s[i] == '<' && NameLength(s, i) == Some(len)
    requires i + 1 + len <= |s| && FindGt(s, i + 1 + len) == Some(g)
    requires g + 1 <= |s| && FindClose(s, g + 1, i, i + 1 + len) == Some(c)
    ensures MatchAt(s, i) == Some(Match(i, i + 1 + len, g + 1, c, c + len + 3))
  {
  }

  /** ... and it is the only one at that position: the pattern has no
      other way to match there. */
  lemma {:induction false} MatchAtComplete(s: string, i: nat, m: Match)
    requires i <= |s| && IsMatchAt(s, i, m)
    ensures MatchAt(s, i) == Some(m)
  {
    var len := m.nameEnd - (i + 1);
    FindGtFirst(s, m.nameEnd);
    assert FindGt(s, m.nameEnd) == Some(m.contentStart - 1);
    FindCloseFirst(s, m.contentStart, i, m.nameEnd);
    assert FindClose(s, m.contentStart, i, m.nameEnd) == Some(m.contentEnd);
    MatchAtParts(s, i, len, m.contentStart - 1, m.contentEnd);
  }

  /** So `MatchAt` finds exactly the match of the pattern at `i`. */
  lemma {:induction false} MatchAtExact(s: string, i: nat, m: Match)
    requires i <= |s|
    ensures MatchAt(s, i) == Some(m) <==> IsMatchAt(s, i, m)
  {
    if MatchAt(s, i) == Some(m) {
      MatchAtSound(s, i, m);
    }
    if IsMatchAt(s, i, m) {
      MatchAtComplete(s, i, m);
    }
  }

  /** `regex.exec` with `lastIndex == k`: the leftmost match starting at or
      after `k`. */
  function FindMatch(s: string, k: nat): (r: Option<Match>)
    requires k <= |s|
    ensures r.Some? ==> k <= r.value.start && Span(s, r.value.start, r.value)
    decreases |s| - k
  {
    if MatchAt(s, k).Some? then MatchAt(s, k)
    else if k == |s| then None
    else FindMatch(s, k + 1)
  }

  /** When `exec` finds nothing, no match starts anywhere from `k` on. */
  lemma {:induction false} FindMatchNone(s: string, k: nat)
    requires k <= |s| && FindMatch(s, k).None?
    ensures forall t :: k <= t <= |s| ==> MatchAt(s, t).None?
    decreases |s| - k
  {
    if k < |s| {
      FindMatchNone(s, k + 1);
    }
  }

  /** `exec` returns the leftmost match: it is the match at its own start,
      and no match starts between `k` and there. */
  lemma {:induction false} FindMatchLeftmost(s: string, k: nat)
    requires k <= |s| && FindMatch(s, k).Some?
    ensures MatchAt(s, FindMatch(s, k).value.start) == FindMatch(s, k)
    ensures forall t :: k <= t < FindMatch(s, k).value.start ==> MatchAt(s, t).None?
    decreases |s| - k
  {
    var r := FindMatch(s, k);
    if MatchAt(s, k).Some? {
      assert r == MatchAt(s, k) && r.value.start == k;
    } else {
      assert k < |s| && r == FindMatch(s, k + 1);
      FindMatchLeftmost(s, k + 1);
      forall t | k < t < r.value.start
        ensures MatchAt(s, t).None?
      {
        assert k + 1 <= t;
      }
    }
  }

  /** All matches of the global pattern from `k` on: each search resumes
      where the previous match ended. */
  function Matches(s: string, k: nat): seq<Match>
    requires k <= |s|
    decreases |s| - k
  {
    match FindMatch(s, k)
    case None => []
    case Some(m) => [m] + Matches(s, m.end)
  }

  /** The text of one block: inner tags removed with `<[^>]+>`, then trimmed. */
  function Clean(body: string): (r: string)
    ensures |r| <= |body|
  {
    Trim(StripTags(body, 1))
  }

  /** Every match found from `k` on lies within `s[k..]`. */
  lemma {:induction false} MatchesAfter(s: string, k: nat)
    requires k <= |s|
    ensures forall m :: m in Matches(s, k) ==> k <= m.start && Span(s, m.start, m)
    decreases |s| - k
  {
    match FindMatch(s, k)
    case None =>
    case Some(m) =>
      MatchesAfter(s, m.end);
  }

  /** Every match found from `k` on is a match of the pattern at its start. */
  lemma {:induction false} MatchesFrom(s: string, k: nat)
    requires k <= |s|
    ensures forall m :: m in Matches(s, k) ==> k <= m.start && IsMatchAt(s, m.start, m)
    decreases |s| - k
  {
    match FindMatch(s, k)
    case None =>
    case Some(m) =>
      FindMatchLeftmost(s, k);
      MatchAtExact(s, m.start, m);
      MatchesFrom(s, m.end);
  }

  /** The matches are in order and do not overlap. */
  lemma {:induction false} MatchesOrdered(s: string, k: nat)
    requires k <= |s|
    ensures forall p, q :: 0 <= p < q < |Matches(s, k)| ==> Matches(s, k)[p].end <= Matches(s, k)[q].start
    decreases |s| - k
  {
    match FindMatch(s, k)
    case None =>
    case Some(m) =>
      MatchesOrdered(s, m.end);
      MatchesAfter(s, m.end);
      var rest := Matches(s, m.end);
      var ms := [m] + rest;
      assert Matches(s, k) == ms;
      forall p, q | 0 <= p < q < |Matches(s, k)| ensures Matches(s, k)[p].end <= Matches(s, k)[q].start {
        assert ms[q] == rest[q - 1] && ms[q] in rest;
        if p > 0 {
          assert ms[p] == rest[p - 1];
        }
      }
  }

  /** There are at most (|s| - k) / 7 matches: the shortest is `<p></p>`. */
  lemma {:induction false} MatchesCount(s: string, k: nat)
    requires k <= |s|
    ensures 7 * |Matches(s, k)| <= |s| - k
    decreases |s| - k
  {
    match FindMatch(s, k)
    case None =>
    case Some(m) =>
      MatchesCount(s, m.end);
  }

  /** The blocks of the matches found from `k` on: each match's body,
      cleaned, in order. */
  function BlocksFrom(s: string, k: nat): seq<string>
    requires k <= |s|
    decreases |s| - k
  {
    match FindMatch(s, k)
    case None => []
    case Some(m) => [Clean(s[m.contentStart..m.contentEnd])] + BlocksFrom(s, m.end)
  }

  /** The blocks of the rendered HTML `s`, in document order. */
  function Blocks(s: string): seq<string> {
    BlocksFrom(s, 0)
  }

  /** There is one block per match, and the t-th block is the cleaned body
      of the t-th match. */
  lemma {:induction false} BlocksOfMatches(s: string, k: nat)
    requires k <= |s|
    ensures |BlocksFrom(s, k)| == |Matches(s, k)|
    ensures forall t :: 0 <= t < |Matches(s, k)| ==>
      var m := Matches(s, k)[t];
      m.contentStart <= m.contentEnd <= |s| && BlocksFrom(s, k)[t] == Clean(s[m.contentStart..m.contentEnd])
    decreases |s| - k
  {
    match FindMatch(s, k)
    case None =>
    case Some(m) =>
      BlocksOfMatches(s, m.end);
      var ms, bs := Matches(s, k), BlocksFrom(s, k);
      assert ms == [m] + Matches(s, m.end);
      assert bs == [Clean(s[m.contentStart..m.contentEnd])] + BlocksFrom(s, m.end);
      forall t | 0 <= t < |ms|
        ensures ms[t].contentStart <= ms[t].contentEnd <= |s| && bs[t] == Clean(s[ms[t].contentStart..ms[t].contentEnd])
      {
        if t > 0 {
          assert ms[t] == Matches(s, m.end)[t - 1] && bs[t] == BlocksFrom(s, m.end)[t - 1];
        }
      }
  }

  /** Lines 168-176: `regex.exec` is called with `lastIndex` advancing to the
      end of each match, and every match's cleaned body is pushed, empty or
      not. The result is the cleaned bodies of all matches, in order. */
  method ExtractParagraphText(html: string) returns (results: seq<string>)
    ensures results == Blocks(html)
  {
    results := [];
    var lastIndex := 0;
    var found := FindMatch(html, lastIndex);
    while found.Some?
      invariant lastIndex <= |html|
      invariant found == FindMatch(html, lastIndex)
      invariant results + BlocksFrom(html, lastIndex) == Blocks(html)
      decreases |html| - lastIndex
    {
      var m := found.value;
      var text := Clean(html[m.contentStart..m.contentEnd]);
      assert BlocksFrom(html, lastIndex) == [text] + BlocksFrom(html, m.end);
      results := results + [text];
      lastIndex := m.end;
      found := FindMatch(html, lastIndex);
    }
  }

  /** Every block is trimmed text containing no `<...>` tag. */
  lemma {:induction false} BlocksAreClean(s: string, k: nat)
    requires k <= |s|
    ensures forall b :: b in BlocksFrom(s, k) ==> Trim(b) == b && TagFree(b, 1)
    decreases |s| - k
  {
    match FindMatch(s, k)
    case None =>
    case Some(m) =>
      BlocksAreClean(s, m.end);
      CleanIsClean(s[m.contentStart..m.contentEnd]);
  }

  lemma {:induction false} CleanIsClean(body: string)
    ensures Trim(Clean(body)) == Clean(body) && TagFree(Clean(body), 1)
  {
    var stripped := StripTags(body, 1);
    StripTagsTagFree(body, 1);
    TrimIdempotent(stripped);
    TrimmedTagFree(stripped);
  }

  lemma {:induction false} TrimmedTagFree(s: string)
    requires TagFree(s, 1)
    ensures TagFree(Trim(s), 1)
  {
    var a, r := TrimOffset(s), Trim(s);
    TrimSpec(s);
    assert a + |r| <= |s| && r == s[a..a + |r|];
    TagFreeSlice(s, a, a + |r|, 1);
  }

  /** HTML without a `<` has no blocks. */
  lemma {:induction false} NoTagsNoBlocks(s: string)
    requires '<' !in s
    ensures Blocks(s) == []
  {
    if FindMatch(s, 0).Some? {
      var m := FindMatch(s, 0).value;
      FindMatchLeftmost(s, 0);
      MatchAtSound(s, m.start, m);
    }
  }

  /** A closing tag begins with `<`, so the lazy body runs over text
      without one. */
  lemma {:induction false} FindCloseOverText(s: string, k: nat, c: nat, o: nat, e: nat)
    requires k <= c <= |s| && CloseAt(s, c, o, e)
    requires forall t :: k <= t < c ==> s[t] != '<'
    ensures FindClose(s, k, o, e) == Some(c)
    decreases c - k
  {
    if k < c {
      FindCloseOverText(s, k + 1, c, o, e);
    }
  }

  /** A `<p>` element whose body has no `<` matches in full at its `<`. */
  lemma {:induction false} ParagraphMatch(s: string, i: nat, c: nat)
    requires i + 3 <= c && c + 4 <= |s|
    requires s[i] == '<' && s[i + 1] == 'p' && s[i + 2] == '>'
    requires s[c] == '<' && s[c + 1] == '/' && s[c + 2] == 'p' && s[c + 3] == '>'
    requires forall t :: i + 3 <= t < c ==> s[t] != '<'
    ensures MatchAt(s, i) == Some(Match(i, i + 2, i + 3, c, c + 4))
  {
    assert NameLength(s, i) == Some(1);
    assert FindGt(s, i + 2) == Some(i + 2);
    assert SameAt(s, c + 2, i + 1, 1);
    FindCloseOverText(s, i + 3, c, i, i + 2);
  }

  /** Text without `<` and without surrounding whitespace is its own block. */
  lemma {:induction false} PlainText(text: string)
    requires '<' !in text && (text == [] || (!IsSpace(text[0]) && !IsSpace(text[|text| - 1])))
    ensures Clean(text) == text
  {
    StripTagsNoAngle(text, 1);
    TrimOfTrimmed(text);
  }

  /** Text with no `<` and no whitespace at either end. */
  predicate Plain(text: string) {
    '<' !in text && (text == [] || (!IsSpace(text[0]) && !IsSpace(text[|text| - 1])))
  }

  /** The element `<p>text</p>`. */
  function Paragraph(text: string): (r: string)
    ensures |r| == |text| + 7
  {
    "<p>" + text + "</p>"
  }

  /** The characters of `<p>text</p>` placed at `i` of `s`. */
  lemma {:induction false} ParagraphChars(s: string, i: nat, text: string)
    requires i + |text| + 7 <= |s| && s[i..i + |text| + 7] == Paragraph(text)
    ensures var c := i + 3 + |text|;
      && s[i] == '<' && s[i + 1] == 'p' && s[i + 2] == '>'
      && s[c] == '<' && s[c + 1] == '/' && s[c + 2] == 'p' && s[c + 3] == '>'
      && s[i + 3..c] == text
  {
    var p, c := Paragraph(text), i + 3 + |text|;
    assert p == "<p>" + text + "</p>";
    assert p[0] == '<' && p[1] == 'p' && p[2] == '>';
    assert p[c - i] == '<' && p[c - i + 1] == '/' && p[c - i + 2] == 'p' && p[c - i + 3] == '>';
    assert p[3..c - i] == text;
    assert s[i] == p[0] && s[i + 1] == p[1] && s[i + 2] == p[2];
    assert s[c] == p[c - i] && s[c + 1] == p[c - i + 1] && s[c + 2] == p[c - i + 2] && s[c + 3] == p[c - i + 3];
    forall t | i + 3 <= t < c ensures s[t] == text[t - i - 3] {
      assert s[t] == p[t - i] == p[3..c - i][t - i - 3];
    }
  }

  /** The `<p>` element at `i` whose body is plain `text` is the match
      found from `i`. */
  lemma {:induction false} ParagraphFound(s: string, i: nat, text: string)
    requires Plain(text) && i + |text| + 7 <= |s| && s[i..i + |text| + 7] == Paragraph(text)
    ensures FindMatch(s, i) == Some(Match(i, i + 2, i + 3, i + 3 + |text|, i + |text| + 7))
  {
    var c := i + 3 + |text|;
    ParagraphChars(s, i, text);
    forall t | i + 3 <= t < c ensures s[t] != '<' {
      assert s[t] == s[i + 3..c][t - i - 3];
    }
    ParagraphMatch(s, i, c);
  }

  /** ... and its block is `text`. */
  lemma {:induction false} ParagraphText(s: string, i: nat, text: string)
    requires Plain(text) && i + |text| + 7 <= |s| && s[i..i + |text| + 7] == Paragraph(text)
    ensures Clean(s[i + 3..i + 3 + |text|]) == text
  {
    ParagraphChars(s, i, text);
    PlainText(text);
  }

  /** HTML made of two paragraphs of plain text gives their two texts. */
  lemma {:induction false} TwoParagraphsAt(s: string, first: string, second: string)
    requires Plain(first) && Plain(second)
    requires |s| == |first| + |second| + 14
    requires s[..|first| + 7] == Paragraph(first) && s[|first| + 7..] == Paragraph(second)
    ensures Blocks(s) == [first] + [second]
  {
    var k := |first| + 7;
    assert s[0..k] == Paragraph(first);
    assert s[k..k + |second| + 7] == Paragraph(second);
    ParagraphFound(s, 0, first);
    ParagraphFound(s, k, second);
    ParagraphText(s, 0, first);
    ParagraphText(s, k, second);
    assert BlocksFrom(s, |s|) == [] by {
      assert MatchAt(s, |s|) == None;
    }
    assert BlocksFrom(s, k) == [second] + [];
    assert BlocksFrom(s, 0) == [first] + BlocksFrom(s, k);
  }

  /** Two paragraphs of plain text give their two texts. */
  lemma {:induction false} TwoParagraphs(first: string, second: string)
    requires Plain(first) && Plain(second)
    ensures Blocks(Paragraph(first) + Paragraph(second)) == [first] + [second]
  {
    var p1, p2 := Paragraph(first), Paragraph(second);
    var s := p1 + p2;
    assert s[..|first| + 7] == p1 && s[|first| + 7..] == p2;
    TwoParagraphsAt(s, first, second);
  }

  /** `<p>Hello</p><p>World</p>` gives `Hello` and `World`. */
  lemma {:induction false} HelloWorld()
    ensures Blocks("<p>Hello</p><p>World</p>") == ["Hello", "World"]
  {
    assert Paragraph("Hello") + Paragraph("World") == "<p>Hello</p><p>World</p>";
    TwoParagraphs("Hello", "World");
  }

  /** An element with no text still yields a block, the empty string. */
  lemma {:induction false} EmptyElementKept(s: string)
    requires s == "<p></p>"
    ensures Blocks(s) == [""]
  {
    ParagraphMatch(s, 0, 3);
    assert FindMatch(s, 0) == Some(Match(0, 2, 3, 3, 7));
    assert BlocksFrom(s, 7) == [] by {
      assert MatchAt(s, 7) == None;
    }
    assert s[3..3] == [];
    PlainText([]);
  }
}
