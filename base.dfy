/** Shared vocabulary of the model: failure-compatible wrappers and the few
    Python built-ins the views rely on (`str.strip`, `str.upper`, `str.lower`,
    `int(str)`, `str(int)` and `round`), written out over exact values. */
module Base {

  datatype Option<+T> = None | Some(value: T)

  /** The outcome of a computation that either succeeds or raises. */
  datatype Result<+T, +E> = Ok(value: T) | Err(error: E)

  // ---------------------------------------------------------------------
  // Characters and strings
  // ---------------------------------------------------------------------

  /** Python's `str.isspace` for one character: the code points that
      `str.strip()` removes. */
  predicate IsSpace(c: char) {
    || c == ' ' || c == '\t' || c == '\n' || c == '\r'
    || c == '\U{000B}' || c == '\U{000C}'
    || ('\U{001C}' <= c <= '\U{001F}')
    || c == '\U{0085}' || c == '\U{00A0}' || c == '\U{1680}'
    || ('\U{2000}' <= c <= '\U{200A}')
    || c == '\U{2028}' || c == '\U{2029}' || c == '\U{202F}'
    || c == '\U{205F}' || c == '\U{3000}'
  }

  function TrimLeft(s: string): (r: string)
    ensures |r| <= |s|
  {
    if s == [] || !IsSpace(s[0]) then s else TrimLeft(s[1..])
  }

  function TrimRight(s: string): (r: string)
    ensures |r| <= |s|
  {
    if s == [] || !IsSpace(s[|s| - 1]) then s else TrimRight(s[..|s| - 1])
  }

  /** What `TrimLeft` leaves does not start with white space. */
  lemma {:induction false} TrimLeftShape(s: string)
    ensures TrimLeft(s) == [] || !IsSpace(TrimLeft(s)[0])
  {
    if s != [] && IsSpace(s[0]) {
      TrimLeftShape(s[1..]);
    }
  }

  /** What `TrimRight` leaves is a prefix of its input that does not end
      with white space. */
  lemma {:induction false} TrimRightShape(s: string)
    ensures TrimRight(s) == s[..|TrimRight(s)|]
    ensures TrimRight(s) == [] || !IsSpace(TrimRight(s)[|TrimRight(s)| - 1])
  {
    if s != [] && IsSpace(s[|s| - 1]) {
      var t := s[..|s| - 1];
      TrimRightShape(t);
      assert t[..|TrimRight(t)|] == s[..|TrimRight(t)|];
    } else {
      assert s[..|s|] == s;
    }
  }

  /** Python's `str.strip()` with no argument. */
  function Strip(s: string): (r: string)
  {
    TrimRight(TrimLeft(s))
  }

  /** A stripped string is no longer than its input and has no white space
      at either end. */
  lemma StripShape(s: string)
    ensures var r := Strip(s);
      |r| <= |s| && (r == [] || (!IsSpace(r[0]) && !IsSpace(r[|r| - 1])))
  {
    var l := TrimLeft(s);
    var r := TrimRight(l);
    TrimLeftShape(s);
    TrimRightShape(l);
    assert r == l[..|r|];
  }

  /** Stripping a string that has no white space at either end changes
      nothing, and stripping twice is stripping once. */
  lemma StripFixedPoint(s: string)
    requires s == [] || (!IsSpace(s[0]) && !IsSpace(s[|s| - 1]))
    ensures Strip(s) == s
  {
  }

  lemma StripIdempotent(s: string)
    ensures Strip(Strip(s)) == Strip(s)
  {
    var r := Strip(s);
    StripShape(s);
    StripFixedPoint(r);
    assert Strip(r) == r;
  }

  /** Surrounding white space does not change what `strip()` yields. */
  lemma {:induction false} StripPadded(pre: string, s: string, post: string)
    requires forall k :: 0 <= k < |pre| ==> IsSpace(pre[k])
    requires forall k :: 0 <= k < |post| ==> IsSpace(post[k])
    requires s == [] || (!IsSpace(s[0]) && !IsSpace(s[|s| - 1]))
    ensures Strip(pre + s + post) == s
  {
    var t := pre + s + post;
    if s == [] {
      assert t == pre + post;
      forall k | 0 <= k < |t| ensures IsSpace(t[k]) {
        if k >= |pre| {
          assert t[k] == post[k - |pre|];
        }
      }
      AllSpaceTrimsAway(t);
    } else {
      assert (s + post)[0] == s[0];
      LeftPadded(pre, s + post);
      assert t == pre + (s + post);
      RightPadded(s, post);
    }
  }

  lemma AllSpaceTrimsAway(s: string)
    requires forall k :: 0 <= k < |s| ==> IsSpace(s[k])
    ensures TrimLeft(s) == []
  {
  }

  lemma {:induction false} LeftPadded(pre: string, s: string)
    requires forall k :: 0 <= k < |pre| ==> IsSpace(pre[k])
    requires s == [] || !IsSpace(s[0]) || forall k :: 0 <= k < |s| ==> IsSpace(s[k])
    ensures s != [] && !IsSpace(s[0]) ==> TrimLeft(pre + s) == s
    decreases |pre|
  {
    if pre != [] && s != [] && !IsSpace(s[0]) {
      assert (pre + s)[1..] == pre[1..] + s;
      LeftPadded(pre[1..], s);
    } else if pre == [] {
      assert pre + s == s;
    }
  }

  lemma {:induction false} RightPadded(s: string, post: string)
    requires forall k :: 0 <= k < |post| ==> IsSpace(post[k])
    requires s == [] || (!IsSpace(s[0]) && !IsSpace(s[|s| - 1]))
    ensures TrimLeft(s + post) == s + post || s == []
    ensures s != [] ==> TrimRight(s + post) == s
    decreases |post|
  {
    if s != [] {
      if post == [] {
        assert s + post == s;
      } else {
        assert (s + post)[..|s + post| - 1] == s + post[..|post| - 1];
        RightPadded(s, post[..|post| - 1]);
      }
    }
  }

  /** ASCII case mapping: only the letters `a`-`z` and `A`-`Z` are mapped.
      Python maps all of Unicode, including a few letters outside ASCII
      that map into it (such as 'ſ' to 'S'), which this does not do. */
  function UpperChar(c: char): (r: char)
  {
    if 'a' <= c <= 'z' then (c as int - 32) as char else c
  }

  function LowerChar(c: char): (r: char)
  {
    if 'A' <= c <= 'Z' then (c as int + 32) as char else c
  }

  /** Python's `str.upper()` (ASCII case mapping). */
  function Upper(s: string): (r: string)
    ensures |r| == |s|
    ensures forall k :: 0 <= k < |s| ==> r[k] == UpperChar(s[k])
  {
    seq(|s|, k requires 0 <= k < |s| => UpperChar(s[k]))
  }

  /** Python's `str.lower()` (ASCII case mapping). */
  function Lower(s: string): (r: string)
    ensures |r| == |s|
    ensures forall k :: 0 <= k < |s| ==> r[k] == LowerChar(s[k])
  {
    seq(|s|, k requires 0 <= k < |s| => LowerChar(s[k]))
  }

  // ---------------------------------------------------------------------
  // Integers and their decimal text
  // ---------------------------------------------------------------------

  predicate IsDigit(c: char) { '0' <= c <= '9' }

  function DigitValue(c: char): nat
    requires IsDigit(c)
  {
    c as int - '0' as int
  }

  /** The digits of a Python integer literal body: ASCII digits, with single
      underscores allowed between two digits (`int("1_000") == 1000`). */
  predicate IsDigitRun(s: string) {
    && s != []
    && IsDigit(s[0]) && IsDigit(s[|s| - 1])
    && (forall k :: 0 <= k < |s| ==> IsDigit(s[k]) || s[k] == '_')
    && (forall k :: 0 <= k < |s| - 1 ==> !(s[k] == '_' && s[k + 1] == '_'))
  }

  /** The value of a string of digits and underscores, underscores ignored. */
  function DigitRunValue(s: string): nat
    requires forall k :: 0 <= k < |s| ==> IsDigit(s[k]) || s[k] == '_'
  {
    if s == [] then 0
    else if s[|s| - 1] == '_' then DigitRunValue(s[..|s| - 1])
    else DigitRunValue(s[..|s| - 1]) * 10 + DigitValue(s[|s| - 1])
  }

  /** Python's `int(s)` on a string: optional surrounding white space, an
      optional sign, then a run of decimal digits. `None` stands for the
      `ValueError` it raises on anything else. Django's integer primary-key
      lookups go through the same conversion. */
  function ParseInt(s: string): (r: Option<int>)
    ensures r.Some? ==> Strip(s) != []
  {
    var t := Strip(s);
    if t == [] then None
    else if (t[0] == '-' || t[0] == '+') then
      var body := t[1..];
      if IsDigitRun(body) then
        Some(if t[0] == '-' then -(DigitRunValue(body) as int) else DigitRunValue(body))
      else None
    else if IsDigitRun(t) then Some(DigitRunValue(t))
    else None
  }

  /** Python's `str(n)` for a natural number. */
  function NatToString(n: nat): (r: string)
    ensures r != [] && forall k :: 0 <= k < |r| ==> IsDigit(r[k])
    decreases n
  {
    if n < 10 then [('0' as int + n) as char]
    else NatToString(n / 10) + [('0' as int + n % 10) as char]
  }

  /** Python's `str(n)` for an integer. */
  function IntToString(n: int): (r: string)
    ensures r != []
  {
    if n < 0 then "-" + NatToString(-n) else NatToString(n)
  }

  lemma {:induction false} NatToStringValue(n: nat)
    ensures DigitRunValue(NatToString(n)) == n
    decreases n
  {
    var r := NatToString(n);
    if n >= 10 {
      NatToStringValue(n / 10);
      assert r[..|r| - 1] == NatToString(n / 10);
    }
  }

  /** `int(str(n)) == n`: the decimal text of an integer reads back as it. */
  lemma ParseIntOfIntToString(n: int)
    ensures ParseInt(IntToString(n)) == Some(n)
  {
    var digits := NatToString(if n < 0 then -n else n);
    NatToStringValue(if n < 0 then -n else n);
    assert IsDigitRun(digits);
    var s := IntToString(n);
    StripFixedPoint(s);
    if n < 0 {
      assert s[1..] == digits;
    }
  }

  // ---------------------------------------------------------------------
  // Rounding
  // ---------------------------------------------------------------------

  /** Python's `round(x)` on an exact value: to the nearest integer, ties to
      the even neighbour. */
  function RoundHalfEven(x: real): (r: int)
    ensures x - 0.5 <= r as real <= x + 0.5
  {
    var f := x.Floor;
    var d := x - f as real;
    if d < 0.5 then f
    else if d > 0.5 then f + 1
    else if f % 2 == 0 then f
    else f + 1
  }

  lemma RoundHalfEvenOfInt(n: int)
    ensures RoundHalfEven(n as real) == n
  {
  }

  lemma RoundHalfEvenMonotone(x: real, y: real)
    requires x <= y
    ensures RoundHalfEven(x) <= RoundHalfEven(y)
  {
  }

  /** Python's `round(x, 2)`, as an exact value. */
  function Round2(x: real): (r: real)
    ensures x - 0.005 <= r <= x + 0.005
  {
    RoundHalfEven(x * 100.0) as real / 100.0
  }

  /** Python's `round(x, 1)`, as an exact value. */
  function Round1(x: real): (r: real)
    ensures x - 0.05 <= r <= x + 0.05
  {
    RoundHalfEven(x * 10.0) as real / 10.0
  }

  lemma Round2Monotone(x: real, y: real)
    requires x <= y
    ensures Round2(x) <= Round2(y)
  {
    RoundHalfEvenMonotone(x * 100.0, y * 100.0);
  }

  lemma Round1Monotone(x: real, y: real)
    requires x <= y
    ensures Round1(x) <= Round1(y)
  {
    RoundHalfEvenMonotone(x * 10.0, y * 10.0);
  }

  lemma Round1Zero()
    ensures Round1(0.0) == 0.0
  {
    RoundHalfEvenOfInt(0);
    assert 0.0 * 10.0 == 0 as real;
  }

  /** Rounding a percentage to two places keeps it a percentage. */
  lemma Round2Percentage(x: real)
    requires 0.0 <= x <= 100.0
    ensures 0.0 <= Round2(x) <= 100.0
  {
    Round2Monotone(0.0, x);
    Round2Monotone(x, 100.0);
    RoundHalfEvenOfInt(0);
    RoundHalfEvenOfInt(10000);
    assert 0.0 * 100.0 == 0 as real;
    assert 100.0 * 100.0 == 10000 as real;
  }

  /** A non-zero number divided by itself is one. */
  lemma DivSelf(x: real)
    requires x != 0.0
    ensures x / x == 1.0
  {
  }

  /** The positions of `s` whose element satisfies `f`. */
  function Positions<T>(s: seq<T>, f: T -> bool): set<int> {
    set i | 0 <= i < |s| && f(s[i])
  }

  /** Counting the positions of a non-empty sequence that satisfy `f` is
      counting those of all but the last, plus one when the last does. */
  lemma CountLast<T>(s: seq<T>, f: T -> bool)
    requires s != []
    ensures |Positions(s, f)| == |Positions(s[..|s| - 1], f)| + (if f(s[|s| - 1]) then 1 else 0)
  {
    var last := |s| - 1;
    assert Positions(s, f) == Positions(s[..last], f) + (if f(s[last]) then {last} else {});
  }

  // ---------------------------------------------------------------------
  // Sequences
  // ---------------------------------------------------------------------

  predicate NoDuplicates<T(==)>(s: seq<T>) {
    forall i, j :: 0 <= i < j < |s| ==> s[i] != s[j]
  }

  /** The elements of `s`, each kept at its first occurrence (what
      `set(...)` keeps, given an order). */
  function Dedup(s: seq<int>): (r: seq<int>)
    ensures NoDuplicates(r)
    ensures forall x :: x in r <==> x in s
    ensures |r| <= |s|
  {
    if s == [] then []
    else
      var init := Dedup(s[..|s| - 1]);
      var last := s[|s| - 1];
      assert forall x :: x in s <==> x in s[..|s| - 1] || x == last;
      if last in init then init else init + [last]
  }
}
