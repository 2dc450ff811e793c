/** Shared vocabulary for the whole model: optional values, HTTP-style
    results, and the few JavaScript string operations the handlers rely on
    (`toLowerCase`, `toUpperCase`, `trim`, `includes`, `startsWith`,
    `split(sep)[k]`, `slice(-n)`, `parseInt`). Case mapping is modelled on
    ASCII letters only. */
module Prelude {

  datatype Option<T> = None | Some(value: T)

  /** An error response: HTTP status code and the `message` field of the body. */
  datatype HttpError = HttpError(code: int, message: string)

  datatype Result<T> = Ok(value: T) | Err(error: HttpError)

  /** JavaScript truthiness of an optional string: absent and "" are falsy. */
  predicate Present(o: Option<string>) {
    o.Some? && o.value != ""
  }

  // ---------------------------------------------------------------------
  // Case mapping
  // ---------------------------------------------------------------------

  function LowerChar(c: char): char {
    if 'A' <= c <= 'Z' then (c as int + 32) as char else c
  }

  function UpperChar(c: char): char {
    if 'a' <= c <= 'z' then (c as int - 32) as char else c
  }

  function Lower(s: string): (r: string)
    ensures |r| == |s|
    ensures forall i :: 0 <= i < |s| ==> r[i] == LowerChar(s[i])
  {
    if s == [] then [] else [LowerChar(s[0])] + Lower(s[1..])
  }

  /** Lower-casing twice is lower-casing once. */
  lemma LowerIdempotent(s: string)
    ensures Lower(Lower(s)) == Lower(s)
  {
    assert forall i :: 0 <= i < |s| ==> LowerChar(LowerChar(s[i])) == LowerChar(s[i]);
  }

  /** A string with no capital letters is its own lower case. */
  lemma LowerOfLowercase(s: string)
    requires forall i :: 0 <= i < |s| ==> !('A' <= s[i] <= 'Z')
    ensures Lower(s) == s
  {
  }

  lemma {:induction false} LowerConcat(a: string, b: string)
    ensures Lower(a + b) == Lower(a) + Lower(b)
  {
    var l := Lower(a + b);
    var r := Lower(a) + Lower(b);
    forall j | 0 <= j < |l|
      ensures l[j] == r[j]
    {
      if j < |a| {
        assert (a + b)[j] == a[j];
      } else {
        assert (a + b)[j] == b[j - |a|];
      }
    }
  }

  function Upper(s: string): (r: string)
    ensures |r| == |s|
    ensures forall i :: 0 <= i < |s| ==> r[i] == UpperChar(s[i])
  {
    if s == [] then [] else [UpperChar(s[0])] + Upper(s[1..])
  }

  // ---------------------------------------------------------------------
  // Whitespace and trim
  // ---------------------------------------------------------------------

  /** The characters `String.prototype.trim` removes: the WhiteSpace
      (including every Zs space separator) and LineTerminator code points. */
  predicate IsJsSpace(c: char) {
    || c == '\t' || c == '\n' || c == '\U{000B}' || c == '\U{000C}'
    || c == '\r' || c == ' ' || c == '\U{00A0}' || c == '\U{1680}'
    || ('\U{2000}' <= c <= '\U{200A}')
    || c == '\U{2028}' || c == '\U{2029}' || c == '\U{202F}' || c == '\U{205F}'
    || c == '\U{3000}' || c == '\U{FEFF}'
  }

  function TrimStart(s: string): string {
    if s != [] && IsJsSpace(s[0]) then TrimStart(s[1..]) else s
  }

  function TrimEnd(s: string): string {
    if s != [] && IsJsSpace(s[|s| - 1]) then TrimEnd(s[..|s| - 1]) else s
  }

  function Trim(s: string): string {
    TrimEnd(TrimStart(s))
  }

  /** A string whose `trim()` is empty, i.e. falsy after trimming. */
  predicate IsBlank(s: string) {
    forall i :: 0 <= i < |s| ==> IsJsSpace(s[i])
  }

  lemma {:induction false} TrimStartBlank(s: string)
    ensures TrimStart(s) == [] <==> IsBlank(s)
    decreases |s|
  {
    if s != [] && IsJsSpace(s[0]) {
      TrimStartBlank(s[1..]);
      if IsBlank(s[1..]) {
        forall i | 0 <= i < |s| ensures IsJsSpace(s[i]) {
          if i > 0 { assert s[i] == s[1..][i - 1]; }
        }
      }
      if IsBlank(s) {
        forall i | 0 <= i < |s[1..]| ensures IsJsSpace(s[1..][i]) {
          assert s[1..][i] == s[i + 1];
        }
      }
    } else if s != [] {
      assert !IsJsSpace(s[0]);
    }
  }

  lemma {:induction false} TrimEndBlank(s: string)
    ensures TrimEnd(s) == [] <==> IsBlank(s)
    decreases |s|
  {
    if s != [] && IsJsSpace(s[|s| - 1]) {
      var init := s[..|s| - 1];
      TrimEndBlank(init);
      if IsBlank(init) {
        forall i | 0 <= i < |s| ensures IsJsSpace(s[i]) {
          if i < |s| - 1 { assert s[i] == init[i]; }
        }
      }
      if IsBlank(s) {
        forall i | 0 <= i < |init| ensures IsJsSpace(init[i]) {
          assert init[i] == s[i];
        }
      }
    } else if s != [] {
      assert !IsJsSpace(s[|s| - 1]);
    }
  }

  /** `!s.trim()` holds exactly for blank strings. */
  lemma TrimEmptyIffBlank(s: string)
    ensures Trim(s) == [] <==> IsBlank(s)
  {
    TrimStartBlank(s);
    var t := TrimStart(s);
    TrimEndBlank(t);
    TrimStartHead(s);
  }

  lemma {:induction false} TrimStartHead(s: string)
    ensures TrimStart(s) != [] ==> !IsJsSpace(TrimStart(s)[0])
    decreases |s|
  {
    if s != [] && IsJsSpace(s[0]) {
      TrimStartHead(s[1..]);
    }
  }

  // ---------------------------------------------------------------------
  // Substrings, prefixes, fields
  // ---------------------------------------------------------------------

  /** `s.includes(sub)`, and equally an unanchored regular-expression
      alternative `/sub/.test(s)`: `sub` starts at some position of `s`. */
  predicate Contains(s: string, sub: string)
    decreases |s|
  {
    StartsWith(s, sub) || (s != [] && Contains(s[1..], sub))
  }

  predicate OccursAt(s: string, sub: string, i: int) {
    0 <= i <= |s| - |sub| && s[i..i + |sub|] == sub
  }

  predicate StartsWith(s: string, prefix: string) {
    |prefix| <= |s| && s[..|prefix|] == prefix
  }

  /** `Contains` holds exactly when `sub` occurs at some index of `s`. */
  lemma {:induction false} ContainsIff(s: string, sub: string)
    ensures Contains(s, sub) <==> exists i :: OccursAt(s, sub, i)
    decreases |s|
  {
    if StartsWith(s, sub) {
      assert OccursAt(s, sub, 0);
    } else if s != [] {
      ContainsIff(s[1..], sub);
      if exists i :: OccursAt(s[1..], sub, i) {
        var i :| OccursAt(s[1..], sub, i);
        assert s[i + 1..i + 1 + |sub|] == s[1..][i..i + |sub|];
        assert OccursAt(s, sub, i + 1);
      }
      if exists i :: OccursAt(s, sub, i) {
        var i :| OccursAt(s, sub, i);
        assert i != 0;
        assert s[1..][i - 1..i - 1 + |sub|] == s[i..i + |sub|];
        assert OccursAt(s[1..], sub, i - 1);
      }
    }
  }

  /** A string without the first character of `sub` does not contain it. */
  lemma {:induction false} ContainsNeedsHead(s: string, sub: string)
    requires sub != []
    requires forall j :: 0 <= j < |s| ==> s[j] != sub[0]
    ensures !Contains(s, sub)
    decreases |s|
  {
    if s != [] {
      if |sub| <= |s| {
        assert s[..|sub|][0] == s[0];
      }
      ContainsNeedsHead(s[1..], sub);
    }
  }

  /** The position of the first `c` in `s`, if any. */
  function IndexOfChar(s: string, c: char): (r: Option<nat>)
    ensures r.Some? ==> r.value < |s| && s[r.value] == c
    ensures r.Some? ==> forall j :: 0 <= j < r.value ==> s[j] != c
    ensures r.None? ==> forall j :: 0 <= j < |s| ==> s[j] != c
  {
    if s == [] then None
    else if s[0] == c then Some(0)
    else match IndexOfChar(s[1..], c)
      case None => None
      case Some(k) => Some(k + 1)
  }

  /** The position of the last `c` in `s`, if any (`lastIndexOf`). */
  function LastIndexOfChar(s: string, c: char): (r: Option<nat>)
    ensures r.Some? ==> r.value < |s| && s[r.value] == c
    ensures r.Some? ==> forall j :: r.value < j < |s| ==> s[j] != c
    ensures r.None? ==> forall j :: 0 <= j < |s| ==> s[j] != c
  {
    if s == [] then None
    else if s[|s| - 1] == c then Some(|s| - 1)
    else LastIndexOfChar(s[..|s| - 1], c)
  }

  /** `s.split(sep)[k]`: the k-th field, or None (`undefined`) when `s`
      holds fewer than k separators. */
  function Field(s: string, sep: char, k: nat): Option<string>
    decreases |s|
  {
    match IndexOfChar(s, sep)
    case None => if k == 0 then Some(s) else None
    case Some(i) => if k == 0 then Some(s[..i]) else Field(s[i + 1..], sep, k - 1)
  }

  /** Joining with a separator and splitting again gives the parts back:
      the field after a separator-free head is the field of the rest. */
  lemma FieldAfterHead(head: string, sep: char, rest: string, k: nat)
    requires forall j :: 0 <= j < |head| ==> head[j] != sep
    ensures Field(head + [sep] + rest, sep, 0) == Some(head)
    ensures Field(head + [sep] + rest, sep, k + 1) == Field(rest, sep, k)
  {
    var s := head + [sep] + rest;
    assert s[|head|] == sep;
    assert forall j :: 0 <= j < |head| ==> s[j] == head[j];
    assert IndexOfChar(s, sep) == Some(|head|);
    assert s[..|head|] == head;
    assert s[|head| + 1..] == rest;
  }

  /** A separator-free string is its own single field. */
  lemma FieldWhole(s: string, sep: char)
    requires forall j :: 0 <= j < |s| ==> s[j] != sep
    ensures Field(s, sep, 0) == Some(s)
    ensures Field(s, sep, 1) == None
  {
  }

  /** `s.slice(-n)` for n > 0: the last n characters, or all of `s`. */
  function LastN(s: string, n: nat): (r: string)
    ensures |r| == if |s| < n then |s| else n
    ensures r == s[|s| - |r|..]
  {
    if |s| < n then s else s[|s| - n..]
  }

  // ---------------------------------------------------------------------
  // Numbers as decimal text
  // ---------------------------------------------------------------------

  function DigitChar(d: nat): char
    requires d < 10
  {
    "0123456789"[d]
  }

  /** The decimal representation of a natural number (`String(n)`). */
  function NatToString(n: nat): (r: string)
    ensures |r| > 0
    ensures forall j :: 0 <= j < |r| ==> '0' <= r[j] <= '9'
    decreases n
  {
    if n < 10 then [DigitChar(n)] else NatToString(n / 10) + [DigitChar(n % 10)]
  }

  predicate IsDigit(c: char) {
    '0' <= c <= '9'
  }

  function DigitValue(c: char): nat
    requires IsDigit(c)
  {
    c as int - '0' as int
  }

  /** The length of the run of decimal digits `s` starts with. */
  function DigitRun(s: string): (n: nat)
    ensures n <= |s|
  {
    if s != [] && IsDigit(s[0]) then 1 + DigitRun(s[1..]) else 0
  }

  /** The value of a string of decimal digits. */
  function DigitsValue(d: string): nat
    requires forall j :: 0 <= j < |d| ==> IsDigit(d[j])
    decreases |d|
  {
    if d == [] then 0 else 10 * DigitsValue(d[..|d| - 1]) + DigitValue(d[|d| - 1])
  }

  lemma {:induction false} DigitRunAllDigits(s: string)
    ensures forall j :: 0 <= j < DigitRun(s) ==> IsDigit(s[j])
    decreases |s|
  {
    if s != [] && IsDigit(s[0]) {
      DigitRunAllDigits(s[1..]);
      forall j | 0 < j < DigitRun(s) ensures IsDigit(s[j]) {
        assert s[j] == s[1..][j - 1];
      }
    }
  }

  /** `parseInt(s)` with the default radix on decimal text: leading
      white space is skipped, one sign is allowed, and the longest run of
      digits after it is read; no digit there gives NaN (None). */
  function ParseIntJs(s: string): Option<int> {
    var t := TrimStart(s);
    var body := if t != [] && (t[0] == '-' || t[0] == '+') then t[1..] else t;
    var n := DigitRun(body);
    DigitRunAllDigits(body);
    if n == 0 then None
    else
      var v: int := DigitsValue(body[..n]);
      Some(if t[0] == '-' then -v else v)
  }

  lemma DigitCharValue(d: nat)
    requires d < 10
    ensures IsDigit(DigitChar(d)) && DigitValue(DigitChar(d)) == d
  {
    assert d == 0 || d == 1 || d == 2 || d == 3 || d == 4 || d == 5 || d == 6 || d == 7 || d == 8 || d == 9;
  }

  /** Reading back the decimal text of `n` gives `n`. */
  lemma {:induction false} DigitsValueOfNat(n: nat)
    ensures DigitsValue(NatToString(n)) == n
    decreases n
  {
    var s := NatToString(n);
    if n < 10 {
      DigitCharValue(n);
      assert s[..|s| - 1] == [];
    } else {
      DigitsValueOfNat(n / 10);
      DigitCharValue(n % 10);
      assert s[..|s| - 1] == NatToString(n / 10);
    }
  }

  /** A digit run stops where the digits stop. */
  lemma {:induction false} DigitRunOfDigits(d: string, rest: string)
    requires forall j :: 0 <= j < |d| ==> IsDigit(d[j])
    requires rest == [] || !IsDigit(rest[0])
    ensures DigitRun(d + rest) == |d|
    decreases |d|
  {
    if d == [] {
      assert d + rest == rest;
    } else {
      assert (d + rest)[1..] == d[1..] + rest;
      DigitRunOfDigits(d[1..], rest);
    }
  }

  /** `String(n)` followed by non-digit text starts with a run of exactly
      its digits, whose value is n. */
  lemma DigitsOfNat(n: nat, rest: string)
    requires rest == [] || !IsDigit(rest[0])
    ensures var d := NatToString(n);
            var s := d + rest;
            && s != [] && IsDigit(s[0]) && TrimStart(s) == s
            && DigitRun(s) == |d| && DigitsValue(s[..|d|]) == n
  {
    var d := NatToString(n);
    var s := d + rest;
    DigitRunOfDigits(d, rest);
    DigitsValueOfNat(n);
    assert s[0] == d[0] && IsDigit(s[0]);
    assert s[..|d|] == d;
  }

  /** `parseInt` reads back `String(n)` followed by non-digit text. */
  lemma ParseIntOfDigits(n: nat, rest: string)
    requires rest == [] || !IsDigit(rest[0])
    ensures ParseIntJs(NatToString(n) + rest) == Some(n)
  {
    DigitsOfNat(n, rest);
  }

  /** A `-` in front of a digit negates what `parseInt` reads. */
  lemma ParseIntNegates(s: string, v: int)
    requires s != [] && IsDigit(s[0])
    requires ParseIntJs(s) == Some(v)
    ensures ParseIntJs("-" + s) == Some(-v)
  {
    var m := "-" + s;
    assert !IsJsSpace(m[0]) && !IsJsSpace(s[0]);
    assert TrimStart(m) == m;
    assert TrimStart(s) == s;
    assert m[1..] == s;
  }

  lemma NatStringStartsWithDigit(n: nat, rest: string)
    ensures NatToString(n) + rest != [] && IsDigit((NatToString(n) + rest)[0])
  {
    DigitsOfNat(n, []);
    assert (NatToString(n) + rest)[0] == (NatToString(n) + [])[0];
  }

  /** ... and `-` followed by it. */
  lemma ParseIntOfMinus(n: nat, rest: string)
    requires rest == [] || !IsDigit(rest[0])
    ensures ParseIntJs("-" + NatToString(n) + rest) == Some(-(n as int))
  {
    var d := NatToString(n);
    var s := d + rest;
    ParseIntOfDigits(n, rest);
    NatStringStartsWithDigit(n, rest);
    calc {
      ParseIntJs("-" + d + rest);
      { assert "-" + d + rest == "-" + s; }
      ParseIntJs("-" + s);
      { ParseIntNegates(s, n); }
      Some(-(n as int));
    }
  }

  /** `parseInt` reads back `String(n)`, and `-` followed by it, whatever
      non-digit text follows. */
  lemma ParseIntOfNat(n: nat, rest: string)
    requires rest == [] || !IsDigit(rest[0])
    ensures ParseIntJs(NatToString(n) + rest) == Some(n)
    ensures ParseIntJs("-" + NatToString(n) + rest) == Some(-(n as int))
  {
    ParseIntOfDigits(n, rest);
    ParseIntOfMinus(n, rest);
  }



  // ---------------------------------------------------------------------
  // Sequences
  // ---------------------------------------------------------------------

  /** `xs.slice(0, n)`: the first min(n, |xs|) elements. */
  function Take<T>(xs: seq<T>, n: nat): (r: seq<T>)
    ensures |r| == if |xs| < n then |xs| else n
    ensures r == xs[..|r|]
  {
    if |xs| <= n then xs else xs[..n]
  }

  /** `xs.findIndex(p)`: the position of the first element satisfying
      `p`, None for -1. */
  function FindFirst<T>(xs: seq<T>, p: T -> bool): (r: Option<nat>)
    ensures r.Some? ==> r.value < |xs| && p(xs[r.value])
    ensures r.Some? ==> forall j :: 0 <= j < r.value ==> !p(xs[j])
    ensures r.None? ==> forall j :: 0 <= j < |xs| ==> !p(xs[j])
  {
    if xs == [] then None
    else if p(xs[0]) then Some(0)
    else match FindFirst(xs[1..], p)
      case None => None
      case Some(k) => Some(k + 1)
  }

  /** Two searches whose tests agree position by position find the same
      position. */
  lemma {:induction false} FindFirstSameVerdicts<T, U>(xs: seq<T>, p: T -> bool, ys: seq<U>, q: U -> bool)
    requires |xs| == |ys|
    requires forall j :: 0 <= j < |xs| ==> p(xs[j]) == q(ys[j])
    ensures FindFirst(ys, q) == FindFirst(xs, p)
  {
    if xs != [] {
      FindFirstSameVerdicts(xs[1..], p, ys[1..], q);
    }
  }

  /** `xs.splice(i, 1)`: everything but position `i`, in order. */
  function RemoveAt<T>(xs: seq<T>, i: nat): (r: seq<T>)
    requires i < |xs|
    ensures |r| == |xs| - 1
    ensures forall j :: 0 <= j < i ==> r[j] == xs[j]
    ensures forall j :: i <= j < |r| ==> r[j] == xs[j + 1]
  {
    xs[..i] + xs[i + 1..]
  }

  function Count<T>(xs: seq<T>, p: T -> bool): nat {
    if xs == [] then 0 else (if p(xs[0]) then 1 else 0) + Count(xs[1..], p)
  }

  /** No more elements satisfy `p` than there are elements. */
  lemma {:induction false} CountBounded<T>(xs: seq<T>, p: T -> bool)
    ensures Count(xs, p) <= |xs|
  {
    if xs != [] {
      CountBounded(xs[1..], p);
    }
  }

  /** `xs.filter(p)`. */
  function Filter<T>(xs: seq<T>, p: T -> bool): seq<T> {
    if xs == [] then [] else (if p(xs[0]) then [xs[0]] else []) + Filter(xs[1..], p)
  }

  predicate NoDuplicates<T(==)>(xs: seq<T>) {
    forall i, j :: 0 <= i < j < |xs| ==> xs[i] != xs[j]
  }

  /** The filter keeps exactly the elements satisfying `p`, and as many of
      them as `Count` counts. */
  lemma {:induction false} FilterSpec<T>(xs: seq<T>, p: T -> bool)
    ensures forall x :: x in Filter(xs, p) <==> x in xs && p(x)
    ensures |Filter(xs, p)| == Count(xs, p)
  {
    if xs != [] {
      FilterSpec(xs[1..], p);
      assert xs == [xs[0]] + xs[1..];
    }
  }

  /** Filtering twice by the same test is filtering once. */
  lemma {:induction false} FilterIdempotent<T>(xs: seq<T>, p: T -> bool)
    ensures Filter(Filter(xs, p), p) == Filter(xs, p)
  {
    if xs != [] {
      FilterIdempotent(xs[1..], p);
      var rest := Filter(xs[1..], p);
      assert Filter(xs, p) == (if p(xs[0]) then [xs[0]] else []) + rest;
      if p(xs[0]) {
        var ys := [xs[0]] + rest;
        assert ys != [] && ys[0] == xs[0] && ys[1..] == rest;
        assert Filter(ys, p) == [xs[0]] + Filter(rest, p);
      } else {
        assert Filter(xs, p) == rest;
      }
    }
  }

  /** Every position moved one place to the right. */
  function Shift(idx: seq<nat>): (r: seq<nat>)
    ensures |r| == |idx|
    ensures forall k :: 0 <= k < |idx| ==> r[k] == idx[k] + 1
  {
    if idx == [] then [] else [idx[0] + 1] + Shift(idx[1..])
  }

  /** `idx` lists positions of `xs`, strictly increasing, holding `ys`. */
  ghost predicate PicksOut<T>(idx: seq<nat>, xs: seq<T>, ys: seq<T>) {
    && |idx| == |ys|
    && (forall k :: 0 <= k < |idx| ==> idx[k] < |xs| && xs[idx[k]] == ys[k])
    && (forall k, l :: 0 <= k < l < |idx| ==> idx[k] < idx[l])
  }

  /** Positions in the tail, shifted by one, are positions in the whole. */
  lemma ShiftPicksOut<T>(idx: seq<nat>, xs: seq<T>, ys: seq<T>)
    requires xs != [] && PicksOut(idx, xs[1..], ys)
    ensures PicksOut(Shift(idx), xs, ys)
    ensures forall k :: 0 <= k < |idx| ==> Shift(idx)[k] > 0
  {
    forall k | 0 <= k < |idx|
      ensures Shift(idx)[k] < |xs| && xs[Shift(idx)[k]] == ys[k]
    {
      assert xs[1..][idx[k]] == ys[k];
    }
  }

  /** Position 0 goes in front of positions that are all after it. */
  lemma ConsPicksOut<T>(idx: seq<nat>, xs: seq<T>, ys: seq<T>)
    requires xs != [] && PicksOut(idx, xs, ys)
    requires forall k :: 0 <= k < |idx| ==> idx[k] > 0
    ensures PicksOut([0] + idx, xs, [xs[0]] + ys)
  {
    var r := [0] + idx;
    forall k | 0 <= k < |r|
      ensures r[k] < |xs| && xs[r[k]] == ([xs[0]] + ys)[k]
    {
      if k > 0 {
        assert r[k] == idx[k - 1];
      }
    }
    forall k, l | 0 <= k < l < |r|
      ensures r[k] < r[l]
    {
      assert r[l] == idx[l - 1];
      if k > 0 {
        assert r[k] == idx[k - 1];
      }
    }
  }

  /** The filter is order-preserving: it is a subsequence of the input,
      witnessed by a strictly increasing index map. */
  lemma {:induction false} FilterIsSubsequence<T>(xs: seq<T>, p: T -> bool)
    returns (idx: seq<nat>)
    ensures |idx| == |Filter(xs, p)|
    ensures forall k :: 0 <= k < |idx| ==> idx[k] < |xs| && xs[idx[k]] == Filter(xs, p)[k]
    ensures forall k, l :: 0 <= k < l < |idx| ==> idx[k] < idx[l]
  {
    if xs == [] {
      idx := [];
    } else {
      var tail := FilterIsSubsequence(xs[1..], p);
      var rest := Filter(xs[1..], p);
      assert PicksOut(tail, xs[1..], rest);
      ShiftPicksOut(tail, xs, rest);
      if p(xs[0]) {
        assert Filter(xs, p) == [xs[0]] + rest;
        ConsPicksOut(Shift(tail), xs, rest);
        idx := [0] + Shift(tail);
      } else {
        assert Filter(xs, p) == rest;
        idx := Shift(tail);
      }
      assert PicksOut(idx, xs, Filter(xs, p));
    }
  }

  /** Filtering a duplicate-free sequence picks its elements at strictly
      increasing positions and leaves it duplicate-free. */
  lemma FilterKeepsDistinct<T>(xs: seq<T>, p: T -> bool) returns (idx: seq<nat>)
    requires NoDuplicates(xs)
    ensures PicksOut(idx, xs, Filter(xs, p))
    ensures NoDuplicates(Filter(xs, p))
  {
    idx := FilterIsSubsequence(xs, p);
    var ys := Filter(xs, p);
    forall k, l | 0 <= k < l < |ys|
      ensures ys[k] != ys[l]
    {
      assert ys[k] == xs[idx[k]] && ys[l] == xs[idx[l]] && idx[k] < idx[l];
    }
  }


  /** Counts of pairwise-exclusive predicates add up to at most the length. */
  lemma {:induction false} DisjointCountsBounded<T>(xs: seq<T>, p: T -> bool, q: T -> bool, r: T -> bool)
    requires forall x :: x in xs ==> !(p(x) && q(x)) && !(p(x) && r(x)) && !(q(x) && r(x))
    ensures Count(xs, p) + Count(xs, q) + Count(xs, r) <= |xs|
  {
    if xs != [] {
      DisjointCountsBounded(xs[1..], p, q, r);
    }
  }

  /** Counts of pairwise-exclusive predicates add up to the length exactly
      when every element satisfies one of them. */
  lemma {:induction false} DisjointCountsExact<T>(xs: seq<T>, p: T -> bool, q: T -> bool, r: T -> bool)
    requires forall x :: x in xs ==> !(p(x) && q(x)) && !(p(x) && r(x)) && !(q(x) && r(x))
    ensures Count(xs, p) + Count(xs, q) + Count(xs, r) == |xs| <==>
            forall j :: 0 <= j < |xs| ==> p(xs[j]) || q(xs[j]) || r(xs[j])
  {
    if xs != [] {
      var t := xs[1..];
      assert forall x :: x in t ==> x in xs;
      DisjointCountsExact(t, p, q, r);
      DisjointCountsBounded(t, p, q, r);
      if p(xs[0]) || q(xs[0]) || r(xs[0]) {
        assert (forall j :: 0 <= j < |xs| ==> p(xs[j]) || q(xs[j]) || r(xs[j])) <==>
               (forall j :: 0 <= j < |t| ==> p(t[j]) || q(t[j]) || r(t[j])) by {
          forall j | 0 <= j < |t| ensures t[j] == xs[j + 1] { }
        }
      }
    }
  }
}
