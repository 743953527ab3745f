/** Character classes and the string helpers of the JavaScript runtime that the
    viewer's text processing relies on: `String.prototype.trim`, the `\s` and
    `\w` classes, ASCII case folding and the `<[^>]+>` / `<[^>]*>` tag-stripping
    replaces. Strings are sequences of characters. */
module Text {

  datatype Option<+T> = None | Some(value: T)

  /** The code points JavaScript counts as WhiteSpace or LineTerminator: what
      `\s` matches and what `trim` removes. */
  predicate IsSpace(c: char) {
    || c == '\t' || c == '\n' || c == '\U{000B}' || c == '\U{000C}' || c == '\r' || c == ' '
    || c == '\U{00A0}' || c == '\U{1680}' || ('\U{2000}' <= c <= '\U{200A}')
    || c == '\U{2028}' || c == '\U{2029}' || c == '\U{202F}' || c == '\U{205F}'
    || c == '\U{3000}' || c == '\U{FEFF}'
  }

  /** The code points that `.` does not match in a JavaScript regular expression. */
  predicate IsLineTerminator(c: char) {
    c == '\n' || c == '\r' || c == '\U{2028}' || c == '\U{2029}'
  }

  /** `\w` without the `u` flag: ASCII letters, digits and underscore. */
  predicate IsWordChar(c: char) {
    ('a' <= c <= 'z') || ('A' <= c <= 'Z') || ('0' <= c <= '9') || c == '_'
  }

  predicate IsDigit(c: char) {
    '0' <= c <= '9'
  }

  /** ASCII case folding, as used by case-insensitive matching of ASCII
      letters and by `toLowerCase` on ASCII text. */
  function LowerAscii(c: char): (r: char)
    ensures !('A' <= r <= 'Z')
    ensures 'A' <= c <= 'Z' ==> r as int == c as int + 32
    ensures !('A' <= c <= 'Z') ==> r == c
  {
    if 'A' <= c <= 'Z' then (c as int + 32) as char else c
  }

  /** `s[k..]` starts with `word`, comparing letters case-insensitively. */
  predicate MatchesAt(s: string, k: nat, word: string)
    decreases |word|
  {
    k + |word| <= |s| && (word == [] || (LowerAscii(s[k]) == LowerAscii(word[0]) && MatchesAt(s, k + 1, word[1..])))
  }

  /** `MatchesAt` compares the word character by character. */
  lemma {:induction false} MatchesAtMeaning(s: string, k: nat, word: string)
    ensures MatchesAt(s, k, word) <==>
      k + |word| <= |s| && forall t :: 0 <= t < |word| ==> LowerAscii(s[k + t]) == LowerAscii(word[t])
    decreases |word|
  {
    if word != [] && k + |word| <= |s| {
      MatchesAtMeaning(s, k + 1, word[1..]);
      if LowerAscii(s[k]) == LowerAscii(word[0]) && MatchesAt(s, k + 1, word[1..]) {
        forall t | 0 <= t < |word| ensures LowerAscii(s[k + t]) == LowerAscii(word[t]) {
          if t > 0 {
            assert word[1..][t - 1] == word[t];
          }
        }
      }
      if forall t :: 0 <= t < |word| ==> LowerAscii(s[k + t]) == LowerAscii(word[t]) {
        forall t | 0 <= t < |word| - 1 ensures LowerAscii(s[k + 1 + t]) == LowerAscii(word[1..][t]) {
          assert LowerAscii(s[k + (t + 1)]) == LowerAscii(word[t + 1]);
        }
      }
    }
  }

  // ----- trim -----

  /** Drops leading whitespace. */
  function TrimStart(s: string): (r: string)
    ensures |r| <= |s|
  {
    if s != [] && IsSpace(s[0]) then TrimStart(s[1..]) else s
  }

  /** `TrimStart` keeps a suffix of `s`: what it drops is whitespace, and
      what it keeps does not start with whitespace. */
  lemma {:induction false} TrimStartSpec(s: string)
    ensures var r := TrimStart(s);
      && r == s[|s| - |r|..]
      && (forall k :: 0 <= k < |s| - |r| ==> IsSpace(s[k]))
      && (r == [] || !IsSpace(r[0]))
  {
    if s != [] && IsSpace(s[0]) {
      TrimStartSpec(s[1..]);
      var r := TrimStart(s);
      forall k | 0 < k < |s| - |r| ensures IsSpace(s[k]) {
        assert s[k] == s[1..][k - 1];
      }
    }
  }

  /** Drops trailing whitespace. */
  function TrimEnd(s: string): (r: string)
    ensures |r| <= |s|
  {
    if s != [] && IsSpace(s[|s| - 1]) then TrimEnd(s[..|s| - 1]) else s
  }

  /** `TrimEnd` keeps a prefix of `s`: what it drops is whitespace, and what
      it keeps does not end with whitespace. */
  lemma {:induction false} TrimEndSpec(s: string)
    ensures var r := TrimEnd(s);
      && r == s[..|r|]
      && (forall k :: |r| <= k < |s| ==> IsSpace(s[k]))
      && (r == [] || !IsSpace(r[|r| - 1]))
  {
    if s != [] && IsSpace(s[|s| - 1]) {
      TrimEndSpec(s[..|s| - 1]);
      var r := TrimEnd(s);
      forall k | |r| <= k < |s| - 1 ensures IsSpace(s[k]) {
        assert s[k] == s[..|s| - 1][k];
      }
    }
  }

  /** `String.prototype.trim`. */
  function Trim(s: string): (r: string)
    ensures |r| <= |s|
  {
    TrimEnd(TrimStart(s))
  }

  /** Where the trimmed text starts: the length of the leading whitespace. */
  function TrimOffset(s: string): nat {
    |s| - |TrimStart(s)|
  }

  /** The result of `trim` is the slice `s[a..a+|r|]` of `s`, everything cut
      off on either side is whitespace, and the result neither starts nor
      ends with whitespace. */
  lemma {:induction false} TrimSpec(s: string)
    ensures var r, a := Trim(s), TrimOffset(s);
      && (r == [] || (!IsSpace(r[0]) && !IsSpace(r[|r| - 1])))
      && a + |r| <= |s| && r == s[a..a + |r|]
      && (forall k :: 0 <= k < a ==> IsSpace(s[k]))
      && (forall k :: a + |r| <= k < |s| ==> IsSpace(s[k]))
  {
    var t := TrimStart(s);
    TrimStartSpec(s);
    TrimEndSpec(t);
    var r, a := Trim(s), TrimOffset(s);
    if r != [] {
      assert r[0] == t[0];
    }
    assert r == s[a..a + |r|];
    forall k | a + |r| <= k < |s| ensures IsSpace(s[k]) {
      assert s[k] == t[k - a];
    }
  }

  lemma {:induction false} TrimIdempotent(s: string)
    ensures Trim(Trim(s)) == Trim(s)
  {
    var r := Trim(s);
    TrimSpec(s);
    if r != [] {
      assert TrimStart(r) == r;
      assert TrimEnd(r) == r;
    }
  }

  /** Text without whitespace at either end is left alone by `trim`. */
  lemma {:induction false} TrimOfTrimmed(s: string)
    requires s == [] || (!IsSpace(s[0]) && !IsSpace(s[|s| - 1]))
    ensures Trim(s) == s
  {
  }

  // ----- tags -----

  /** The index of the first `>` at or after `k`. */
  function FindGt(s: string, k: nat): (r: Option<nat>)
    requires k <= |s|
    ensures r.Some? ==> k <= r.value < |s| && s[r.value] == '>'
    decreases |s| - k
  {
    if k == |s| then None
    else if s[k] == '>' then Some(k)
    else FindGt(s, k + 1)
  }

  /** `FindGt` finds the first `>` from `k` on, and finds none exactly when
      there is none. */
  lemma {:induction false} FindGtFirst(s: string, k: nat)
    requires k <= |s|
    ensures var r := FindGt(s, k);
      && (r.Some? ==> forall t :: k <= t < r.value ==> s[t] != '>')
      && (r.None? ==> forall t :: k <= t < |s| ==> s[t] != '>')
    decreases |s| - k
  {
    if k < |s| && s[k] != '>' {
      FindGtFirst(s, k + 1);
    }
  }

  /** The pattern `<[^>]+>` (minInner = 1) or `<[^>]*>` (minInner = 0)
      matches at index `i`: a `<`, at least `minInner` characters other than
      `>`, then the first `>`. */
  predicate TagAt(s: string, i: nat, minInner: nat)
    requires i < |s|
  {
    s[i] == '<' && FindGt(s, i + 1).Some? && FindGt(s, i + 1).value - (i + 1) >= minInner
  }

  predicate TagFree(s: string, minInner: nat) {
    forall i :: 0 <= i < |s| ==> !TagAt(s, i, minInner)
  }

  /** `s.replace(/<[^>]+>/g, '')` (minInner = 1) or `s.replace(/<[^>]*>/g, '')`
      (minInner = 0): scanning left to right, every match is deleted and every
      other character is kept. */
  function StripTags(s: string, minInner: nat): (r: string)
    ensures |r| <= |s|
    decreases |s|
  {
    if s == [] then []
    else if TagAt(s, 0, minInner) then StripTags(s[FindGt(s, 1).value + 1..], minInner)
    else [s[0]] + StripTags(s[1..], minInner)
  }

  /** Every character of the result occurs in the input. */
  lemma {:induction false} StripTagsKeeps(s: string, minInner: nat)
    ensures forall c :: c in StripTags(s, minInner) ==> c in s
    decreases |s|
  {
    if s == [] {
    } else if TagAt(s, 0, minInner) {
      var j := FindGt(s, 1).value + 1;
      StripTagsKeeps(s[j..], minInner);
      forall c | c in StripTags(s, minInner) ensures c in s {
        assert c in s[j..];
        var u :| 0 <= u < |s[j..]| && s[j..][u] == c;
        assert s[j + u] == c;
      }
    } else {
      StripTagsKeeps(s[1..], minInner);
      forall c | c in StripTags(s, minInner) ensures c in s {
        if c != s[0] {
          assert c in StripTags(s[1..], minInner);
          var u :| 0 <= u < |s[1..]| && s[1..][u] == c;
          assert s[u + 1] == c;
        }
      }
    }
  }

  /** Text with no `<` is left alone by the tag-stripping replace. */
  lemma {:induction false} StripTagsNoAngle(s: string, minInner: nat)
    requires '<' !in s
    ensures StripTags(s, minInner) == s
    decreases |s|
  {
    if s != [] {
      assert s[0] != '<';
      assert '<' !in s[1..] by { forall c | c in s[1..] ensures c in s { } }
      StripTagsNoAngle(s[1..], minInner);
    }
  }

  /** The first `>` after a run without one. */
  lemma {:induction false} FindGtAfter(s: string, k: nat, j: nat)
    requires k <= j < |s| && s[j] == '>'
    requires forall t :: k <= t < j ==> s[t] != '>'
    ensures FindGt(s, k) == Some(j)
    decreases j - k
  {
    if k < j {
      FindGtAfter(s, k + 1, j);
    }
  }

  /** Text before a tag survives the replace, the tag itself is deleted,
      and the replace goes on after the tag: `x<y>z` becomes `x` followed by
      the stripped `z`. */
  lemma {:induction false} StripTagsTag(x: string, y: string, z: string, minInner: nat)
    requires '<' !in x && '>' !in y && |y| >= minInner
    ensures StripTags(x + "<" + y + ">" + z, minInner) == x + StripTags(z, minInner)
    decreases |x|
  {
    var s := x + "<" + y + ">" + z;
    if x == [] {
      assert s == "<" + y + ">" + z;
      assert s[|y| + 1] == '>';
      forall t | 1 <= t < |y| + 1 ensures s[t] != '>' {
        assert s[t] == y[t - 1];
      }
      FindGtAfter(s, 1, |y| + 1);
      assert s[|y| + 2..] == z;
    } else {
      assert s[0] == x[0] && x[0] != '<';
      assert '<' !in x[1..] by { forall c | c in x[1..] ensures c in x { } }
      StripTagsTag(x[1..], y, z, minInner);
      assert s[1..] == x[1..] + "<" + y + ">" + z;
    }
  }

  lemma {:induction false} FindGtCons(c: char, t: string, k: nat)
    requires k <= |t|
    ensures FindGt([c] + t, k + 1) == if FindGt(t, k).Some? then Some(FindGt(t, k).value + 1) else None
    decreases |t| - k
  {
    if k < |t| {
      assert ([c] + t)[k + 1] == t[k];
      if t[k] != '>' {
        FindGtCons(c, t, k + 1);
      }
    }
  }

  lemma {:induction false} TagAtCons(c: char, t: string, i: nat, minInner: nat)
    requires i < |t|
    ensures TagAt([c] + t, i + 1, minInner) == TagAt(t, i, minInner)
  {
    FindGtCons(c, t, i + 1);
  }

  /** After the replace, no tag is left: the output contains no match of the
      pattern. */
  lemma {:induction false} StripTagsTagFree(s: string, minInner: nat)
    requires minInner <= 1
    ensures TagFree(StripTags(s, minInner), minInner)
    decreases |s|
  {
    if s == [] {
    } else if TagAt(s, 0, minInner) {
      StripTagsTagFree(s[FindGt(s, 1).value + 1..], minInner);
    } else {
      var rest := StripTags(s[1..], minInner);
      var r := [s[0]] + rest;
      StripTagsTagFree(s[1..], minInner);
      forall i | 0 <= i < |r| ensures !TagAt(r, i, minInner) {
        if i > 0 {
          TagAtCons(s[0], rest, i - 1, minInner);
        } else if s[0] == '<' {
          FindGtCons(s[0], rest, 0);
          if FindGt(s, 1).None? {
            // no '>' after the '<' in the input, hence none in what is kept of it
            FindGtFirst(s, 1);
            StripTagsKeeps(s[1..], minInner);
            forall t | 0 <= t < |rest| ensures rest[t] != '>' {
              assert rest[t] in s[1..];
              var u :| 0 <= u < |s| - 1 && s[1..][u] == rest[t];
              assert s[u + 1] == rest[t];
            }
          } else {
            // the '>' follows the '<' immediately, and the replace keeps it
            assert minInner == 1 && FindGt(s, 1).value == 1;
            assert s[1..][0] == '>';
            assert rest[0] == '>';
            assert FindGt(rest, 0) == Some(0);
          }
        }
      }
    }
  }

  lemma {:induction false} FindGtSlice(s: string, a: nat, b: nat, k: nat)
    requires a <= b <= |s| && k <= b - a
    ensures var f := FindGt(s, a + k);
      FindGt(s[a..b], k) == if f.Some? && f.value < b then Some(f.value - a) else None
  {
    var f, g := FindGt(s, a + k), FindGt(s[a..b], k);
    FindGtFirst(s, a + k);
    FindGtFirst(s[a..b], k);
    if g.Some? {
      assert s[a + g.value] == '>';
    }
    if f.Some? && f.value < b {
      assert s[a..b][f.value - a] == '>';
    }
  }

  /** Any contiguous slice of tag-free text is tag-free. */
  lemma {:induction false} TagFreeSlice(s: string, a: nat, b: nat, minInner: nat)
    requires a <= b <= |s| && TagFree(s, minInner)
    ensures TagFree(s[a..b], minInner)
  {
    forall i | 0 <= i < b - a ensures !TagAt(s[a..b], i, minInner) {
      FindGtSlice(s, a, b, i + 1);
      assert !TagAt(s, a + i, minInner);
    }
  }
}
