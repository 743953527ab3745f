/** The anchor ids the viewer gives to headings: the heading text lower-cased,
    stripped of everything but word characters, whitespace and `-`, with each
    whitespace run turned into one `-`, cut to 50 characters, and suffixed
    with `-` and the heading's running number. */
module HeadingIds {
  import opened Text

  // ----- decimal numerals -----

  function DigitChar(d: nat): (c: char)
    requires d < 10
    ensures IsDigit(c) && c as int - '0' as int == d
  {
    ('0' as int + d) as char
  }

  /** The decimal numeral of `n`, as a template literal prints a non-negative
      integer: no sign, no leading zeros. */
  function Decimal(n: nat): (r: string)
    ensures r != [] && forall t :: 0 <= t < |r| ==> IsDigit(r[t])
    decreases n
  {
    if n < 10 then [DigitChar(n)] else Decimal(n / 10) + [DigitChar(n % 10)]
  }

  /** The value of a string of decimal digits. */
  function DigitsValue(s: string): nat
    requires forall t :: 0 <= t < |s| ==> IsDigit(s[t])
  {
    if s == [] then 0
    else
      assert IsDigit(s[|s| - 1]);
      10 * DigitsValue(s[..|s| - 1]) + (s[|s| - 1] as int - '0' as int)
  }

  /** Reading the numeral back gives the number. */
  lemma {:induction false} DecimalValue(n: nat)
    ensures DigitsValue(Decimal(n)) == n
    decreases n
  {
    if n >= 10 {
      DecimalValue(n / 10);
      var r := Decimal(n);
      assert r[..|r| - 1] == Decimal(n / 10);
    }
  }

  /** Different numbers have different numerals. */
  lemma {:induction false} DecimalInjective(a: nat, b: nat)
    requires Decimal(a) == Decimal(b)
    ensures a == b
  {
    DecimalValue(a);
    DecimalValue(b);
  }

  // ----- the base id -----

  /** `toLowerCase`, on ASCII letters. */
  function Lower(s: string): (r: string)
    ensures |r| == |s| && forall t :: 0 <= t < |s| ==> r[t] == LowerAscii(s[t])
  {
    seq(|s|, t requires 0 <= t < |s| => LowerAscii(s[t]))
  }

  /** The characters `[\w\s-]` keeps. */
  predicate Kept(c: char) {
    IsWordChar(c) || IsSpace(c) || c == '-'
  }

  /** `.replace(/[^\w\s-]/g, '')`: every character outside the class is
      deleted. */
  function KeepIdChars(s: string): (r: string)
    ensures |r| <= |s|
    ensures forall t :: 0 <= t < |r| ==> Kept(r[t])
    ensures forall c :: c in r ==> c in s
  {
    if s == [] then []
    else (if Kept(s[0]) then [s[0]] else []) + KeepIdChars(s[1..])
  }

  /** `.replace(/\s+/g, '-')`: every maximal run of whitespace becomes one
      `-`. */
  function DashSpaces(s: string): (r: string)
    ensures forall t :: 0 <= t < |r| ==> !IsSpace(r[t])
    ensures forall c :: c in r ==> c in s || c == '-'
    decreases |s|
  {
    if s == [] then []
    else if IsSpace(s[0]) then
      var rest := TrimStart(s[1..]);
      TrimStartSpec(s[1..]);
      ['-'] + DashSpaces(rest)
    else [s[0]] + DashSpaces(s[1..])
  }

  /** The characters an id is made of: lower-case ASCII letters, digits,
      underscore and `-`. */
  predicate IdChar(c: char) {
    ('a' <= c <= 'z') || IsDigit(c) || c == '_' || c == '-'
  }

  /** Lines 194-198 of render.ts up to `.substring(0, 50)`. */
  function BaseId(text: string): (r: string)
    ensures |r| <= 50
  {
    var slug := DashSpaces(KeepIdChars(Lower(text)));
    if |slug| <= 50 then slug else slug[..50]
  }

  /** `generateHeadingId(text, index)`: an id usable as an anchor, made of
      id characters only, at most 51 characters longer than the numeral. */
  function HeadingId(text: string, index: nat): (r: string)
    ensures |r| <= 51 + |Decimal(index)|
    ensures forall t :: 0 <= t < |r| ==> IdChar(r[t])
  {
    BaseIdChars(text);
    BaseId(text) + "-" + Decimal(index)
  }

  // ----- properties -----

  /** A base id is at most 50 characters, all of them id characters: upper
      case is gone, every other character outside `[\w\s-]` is gone, and no
      whitespace is left. */
  lemma {:induction false} BaseIdChars(text: string)
    ensures |BaseId(text)| <= 50
    ensures forall t :: 0 <= t < |BaseId(text)| ==> IdChar(BaseId(text)[t])
  {
    var lowered := Lower(text);
    var kept := KeepIdChars(lowered);
    var slug := DashSpaces(kept);
    forall c | c in slug ensures IdChar(c) {
      if c != '-' {
        assert c in kept;
        var t :| 0 <= t < |kept| && kept[t] == c;
        assert Kept(c);
        assert c in lowered;
        var u :| 0 <= u < |lowered| && lowered[u] == c;
        assert c == LowerAscii(text[u]);
      }
    }
    var r := BaseId(text);
    forall t | 0 <= t < |r| ensures IdChar(r[t]) {
      assert r[t] == slug[t];
      assert slug[t] in slug;
    }
  }

  /** A heading id is its base id, then `-`, then the index in decimal; the
      index can be read back from the id's last `-`-free segment, so two
      headings with different indices never share an id, whatever their
      text. */
  lemma {:induction false} HeadingIdsDistinct(text1: string, i: nat, text2: string, j: nat)
    requires i != j
    ensures HeadingId(text1, i) != HeadingId(text2, j)
  {
    var d1, d2 := Decimal(i), Decimal(j);
    var x, y := HeadingId(text1, i), HeadingId(text2, j);
    HeadingIdSuffix(text1, i);
    HeadingIdSuffix(text2, j);
    if |x| != |y| {
    } else if |d1| < |d2| {
      var p := |x| - |d1| - 1;
      assert y[p] == d2[|d2| - |d1| - 1] by {
        assert y[|y| - |d2|..][|d2| - |d1| - 1] == y[p];
      }
    } else if |d2| < |d1| {
      var p := |y| - |d2| - 1;
      assert x[p] == d1[|d1| - |d2| - 1] by {
        assert x[|x| - |d1|..][|d1| - |d2| - 1] == x[p];
      }
    } else if x == y {
      DecimalInjective(i, j);
    }
  }

  /** The suffix of a heading id is `-` and the decimal index. */
  lemma {:induction false} HeadingIdSuffix(text: string, index: nat)
    ensures var id, d := HeadingId(text, index), Decimal(index);
      |id| > |d| && id[|id| - |d| - 1] == '-' && id[|id| - |d|..] == d
      && id[..|id| - |d| - 1] == BaseId(text)
  {
  }

  /** On text that is already an id (id characters only, at most 50 of
      them) the base id is the text itself; in particular taking the base id
      twice changes nothing. */
  lemma {:induction false} BaseIdOfId(text: string)
    requires |text| <= 50 && forall t :: 0 <= t < |text| ==> IdChar(text[t])
    ensures BaseId(text) == text
  {
    assert Lower(text) == text;
    KeepIdCharsOfId(text);
    DashSpacesOfId(text);
  }

  lemma {:induction false} BaseIdIdempotent(text: string)
    ensures BaseId(BaseId(text)) == BaseId(text)
  {
    BaseIdChars(text);
    BaseIdOfId(BaseId(text));
  }

  lemma {:induction false} KeepIdCharsOfId(s: string)
    requires forall t :: 0 <= t < |s| ==> IdChar(s[t])
    ensures KeepIdChars(s) == s
  {
    if s != [] {
      KeepIdCharsOfId(s[1..]);
      assert s == [s[0]] + s[1..];
    }
  }

  lemma {:induction false} DashSpacesOfId(s: string)
    requires forall t :: 0 <= t < |s| ==> IdChar(s[t])
    ensures DashSpaces(s) == s
  {
    if s != [] {
      DashSpacesOfId(s[1..]);
      assert s == [s[0]] + s[1..];
    }
  }

  /** The character filter works character by character: a character is
      kept exactly when it is in `[\w\s-]` (KeepIdCharsOne), and the kept
      characters stay in their order (KeepIdCharsAppend). */
  lemma {:induction false} KeepIdCharsAppend(a: string, b: string)
    ensures KeepIdChars(a + b) == KeepIdChars(a) + KeepIdChars(b)
    decreases |a|
  {
    if a == [] {
      assert a + b == b;
    } else {
      KeepIdCharsAppend(a[1..], b);
      assert (a + b)[0] == a[0] && (a + b)[1..] == a[1..] + b;
      AppendAssocChars(if Kept(a[0]) then [a[0]] else [], KeepIdChars(a[1..]), KeepIdChars(b));
    }
  }

  lemma {:induction false} AppendAssocChars(a: string, b: string, c: string)
    ensures (a + b) + c == a + (b + c)
  {
  }

  lemma {:induction false} KeepIdCharsOne(c: char)
    ensures KeepIdChars([c]) == if Kept(c) then [c] else []
  {
    assert [c][1..] == [];
  }

  /** Text made only of `[\w\s-]` characters passes the filter unchanged. */
  lemma {:induction false} KeepIdCharsKept(s: string)
    requires forall t :: 0 <= t < |s| ==> Kept(s[t])
    ensures KeepIdChars(s) == s
    decreases |s|
  {
    if s != [] {
      KeepIdCharsKept(s[1..]);
    }
  }

  /** Leading whitespace up to the first other character is what
      `TrimStart` drops. */
  lemma {:induction false} TrimStartRun(w: string, y: string)
    requires forall t :: 0 <= t < |w| ==> IsSpace(w[t])
    requires y == [] || !IsSpace(y[0])
    ensures TrimStart(w + y) == y
    decreases |w|
  {
    if w == [] {
      assert w + y == y;
    } else {
      TrimStartRun(w[1..], y);
      assert (w + y)[1..] == w[1..] + y;
    }
  }

  /** A maximal whitespace run at the front becomes one `-`, whatever its
      length. */
  lemma {:induction false} DashSpacesRun(w: string, y: string)
    requires w != [] && forall t :: 0 <= t < |w| ==> IsSpace(w[t])
    requires y == [] || !IsSpace(y[0])
    ensures DashSpaces(w + y) == "-" + DashSpaces(y)
  {
    var s := w + y;
    assert s[0] == w[0] && s[1..] == w[1..] + y;
    TrimStartRun(w[1..], y);
  }

  /** Characters other than whitespace in front are kept as they are. */
  lemma {:induction false} DashSpacesKeeps(x: string, y: string)
    requires forall t :: 0 <= t < |x| ==> !IsSpace(x[t])
    ensures DashSpaces(x + y) == x + DashSpaces(y)
    decreases |x|
  {
    if x == [] {
      assert x + y == y;
    } else {
      DashSpacesKeeps(x[1..], y);
      assert (x + y)[0] == x[0] && (x + y)[1..] == x[1..] + y;
    }
  }

  /** Text without whitespace is left unchanged. */
  lemma {:induction false} DashSpacesNoSpace(s: string)
    requires forall t :: 0 <= t < |s| ==> !IsSpace(s[t])
    ensures DashSpaces(s) == s
  {
    DashSpacesKeeps(s, []);
    assert s + [] == s;
  }

  /** Whitespace runs collapse: `"a  b"` and `"a b"` get the same base id,
      and so does `"A\tb"`. */
  lemma {:induction false} CollapsedSpaces()
    ensures BaseId("a  b") == "a-b" && BaseId("A\tb") == "a-b"
  {
    assert Lower("a  b") == "a  b";
    assert KeepIdChars("a  b") == "a  b";
    assert TrimStart(" b") == "b";
    assert DashSpaces("a  b") == "a-b";
    assert Lower("A\tb") == "a\tb";
    assert KeepIdChars("a\tb") == "a\tb";
    assert TrimStart("b") == "b";
    assert DashSpaces("a\tb") == "a-b";
  }
}
