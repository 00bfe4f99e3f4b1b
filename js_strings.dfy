/** The few pieces of JavaScript string semantics the error dialog relies on:
    truthiness, how `+` renders a value, `a || b` on strings, the decimal
    rendering of an integral Number, `String.prototype.replace` with a string
    pattern and `Array.prototype.join`. */
module JsStrings {

  datatype Option<T> = None | Some(value: T)

  /** JavaScript truthiness of an optional string: `undefined` and "" are falsy. */
  predicate Truthy(v: Option<string>) {
    v.Some? && v.value != ""
  }

  /** The text that `"..." + v` produces: an absent value reads "undefined". */
  function Render(v: Option<string>): (r: string)
    ensures Truthy(v) ==> r == v.value
    ensures r == "" <==> v == Some("")
  {
    match v
    case Some(s) => s
    case None => "undefined"
  }

  /** `a || b` where both operands are strings. */
  function Or(a: string, b: string): (r: string)
    ensures r == a || r == b
    ensures a != "" ==> r == a
    ensures r == "" <==> a == "" && b == ""
  {
    if a != "" then a else b
  }

  // ---------------------------------------------------------------------------
  // Decimal rendering of an integral Number (`"" + 12` is "12")
  // ---------------------------------------------------------------------------

  predicate IsDigit(c: char) {
    '0' <= c <= '9'
  }

  function DigitChar(d: nat): (c: char)
    requires d < 10
    ensures IsDigit(c) && c as int - '0' as int == d
  {
    ('0' as int + d) as char
  }

  function DigitValue(c: char): nat
    requires IsDigit(c)
  {
    c as int - '0' as int
  }

  /** Most significant digit first, no leading zeros. */
  function NatToDecimal(n: nat): (r: string)
    ensures |r| > 0
    ensures forall i :: 0 <= i < |r| ==> IsDigit(r[i])
    ensures r[0] == '0' ==> n == 0
    decreases n
  {
    if n < 10 then [DigitChar(n)] else NatToDecimal(n / 10) + [DigitChar(n % 10)]
  }

  /** The value a string of decimal digits denotes. */
  function DecimalValue(s: string): nat
    requires forall i :: 0 <= i < |s| ==> IsDigit(s[i])
  {
    if s == [] then 0 else DecimalValue(s[..|s| - 1]) * 10 + DigitValue(s[|s| - 1])
  }

  lemma {:induction false} DecimalRoundTrip(n: nat)
    ensures DecimalValue(NatToDecimal(n)) == n
    decreases n
  {
    var r := NatToDecimal(n);
    if n >= 10 {
      DecimalRoundTrip(n / 10);
      assert r[..|r| - 1] == NatToDecimal(n / 10);
    }
  }

  function IntToDecimal(n: int): (r: string)
    ensures r != [] && (r[0] == '-' <==> n < 0)
    ensures n >= 0 ==> forall i :: 0 <= i < |r| ==> IsDigit(r[i])
    ensures n < 0 ==> forall i :: 1 <= i < |r| ==> IsDigit(r[i])
  {
    if n < 0 then "-" + NatToDecimal(-n) else NatToDecimal(n)
  }

  /** The digits of an integer's rendering denote its magnitude: the whole
      rendering for a non-negative integer, the part after `-` otherwise. */
  lemma IntToDecimalValue(n: int)
    ensures n >= 0 ==> DecimalValue(IntToDecimal(n)) == n
    ensures n < 0 ==> DecimalValue(IntToDecimal(n)[1..]) == -n
  {
    if n < 0 {
      DecimalRoundTrip(-n);
      assert IntToDecimal(n)[1..] == NatToDecimal(-n);
    } else {
      DecimalRoundTrip(n);
    }
  }

  // ---------------------------------------------------------------------------
  // String.prototype.replace with a string pattern: first occurrence only
  // ---------------------------------------------------------------------------

  /** `p` occurs in `s` starting at index `i`. */
  predicate OccursAt(s: string, p: string, i: int) {
    0 <= i && i + |p| <= |s| && s[i..i + |p|] == p
  }

  /** No occurrence of `p` in `s` starts before index `n`. */
  predicate NoneBefore(s: string, p: string, n: int) {
    forall i :: 0 <= i < n ==> !OccursAt(s, p, i)
  }

  lemma OccursAtTail(s: string, p: string, i: nat)
    requires |s| > 0
    ensures OccursAt(s[1..], p, i) <==> OccursAt(s, p, i + 1)
  {
    if i + |p| <= |s| - 1 {
      assert s[1..][i..i + |p|] == s[i + 1..i + 1 + |p|];
    }
  }

  lemma NoneBeforeTail(s: string, p: string, n: nat)
    requires |s| > 0 && NoneBefore(s, p, n + 1)
    ensures NoneBefore(s[1..], p, n)
  {
    forall j | 0 <= j < n ensures !OccursAt(s[1..], p, j) {
      OccursAtTail(s, p, j);
    }
  }

  /** An occurrence that fits in `a` is the same in `a + r`. */
  lemma OccursAtAppendLeft(a: string, r: string, p: string, i: int)
    requires i + |p| <= |a|
    ensures OccursAt(a + r, p, i) <==> OccursAt(a, p, i)
  {
    if 0 <= i {
      assert (a + r)[i..i + |p|] == a[i..i + |p|];
    }
  }

  /** An occurrence at or after `|a|` in `a + r` is one in `r`. */
  lemma OccursAtAppendRight(a: string, r: string, p: string, i: int)
    requires |a| <= i
    ensures OccursAt(a + r, p, i) <==> OccursAt(r, p, i - |a|)
  {
    if i + |p| <= |a| + |r| {
      assert (a + r)[i..i + |p|] == r[i - |a|..i - |a| + |p|];
    }
  }

  /** `a` does not end in a proper, non-empty prefix of `p`, so no occurrence
      of `p` can begin in `a` and run past its end. */
  predicate NoPartialSuffix(a: string, p: string) {
    forall k :: 0 < k < |p| ==> !EndsWith(a, p[..k])
  }

  /** `s.replace(p, rep)` where `rep` holds no `$` pattern. */
  function ReplaceFirst(s: string, p: string, rep: string): string
    decreases |s|
  {
    if |s| < |p| then s
    else if s[..|p|] == p then rep + s[|p|..]
    else [s[0]] + ReplaceFirst(s[1..], p, rep)
  }

  /** With no occurrence of `p`, `replace` leaves `s` unchanged. */
  lemma {:induction false} ReplaceFirstAbsent(s: string, p: string, rep: string)
    requires NoneBefore(s, p, |s| + 1)
    ensures ReplaceFirst(s, p, rep) == s
    decreases |s|
  {
    if |s| >= |p| {
      assert !OccursAt(s, p, 0);
      NoneBeforeTail(s, p, |s|);
      ReplaceFirstAbsent(s[1..], p, rep);
    }
  }

  /** `p` first occurs in `s` at `i`. */
  predicate IsFirst(s: string, p: string, i: int) {
    OccursAt(s, p, i) && NoneBefore(s, p, i)
  }

  /** With its first occurrence at `i`, `replace` substitutes `rep` for exactly
      that occurrence and keeps everything before and after it. */
  lemma {:induction false} ReplaceFirstAt(s: string, p: string, rep: string, i: nat)
    requires IsFirst(s, p, i)
    ensures ReplaceFirst(s, p, rep) == s[..i] + rep + s[i + |p|..]
    decreases |s|
  {
    if i == 0 {
      assert s[..|p|] == p;
    } else {
      assert !OccursAt(s, p, 0);
      assert ReplaceFirst(s, p, rep) == [s[0]] + ReplaceFirst(s[1..], p, rep);
      OccursAtTail(s, p, i - 1);
      NoneBeforeTail(s, p, i - 1);
      ReplaceFirstAt(s[1..], p, rep, i - 1);
      assert [s[0]] + s[1..][..i - 1] == s[..i];
      assert s[1..][i - 1 + |p|..] == s[i + |p|..];
    }
  }

  /** The two lemmas above together: `replace` either changes nothing or
      rewrites the first occurrence. */
  lemma ReplaceFirstSpec(s: string, p: string, rep: string)
    ensures NoneBefore(s, p, |s| + 1) ==> ReplaceFirst(s, p, rep) == s
    ensures forall i: nat :: IsFirst(s, p, i) ==>
      ReplaceFirst(s, p, rep) == s[..i] + rep + s[i + |p|..]
  {
    if NoneBefore(s, p, |s| + 1) {
      ReplaceFirstAbsent(s, p, rep);
    }
    forall i: nat | IsFirst(s, p, i) {
      ReplaceFirstAt(s, p, rep, i);
    }
  }

  // ---------------------------------------------------------------------------
  // Array.prototype.join
  // ---------------------------------------------------------------------------

  /** `parts.join(sep)`: the parts with `sep` between neighbours. */
  function Join(parts: seq<string>, sep: string): string {
    if |parts| == 0 then ""
    else if |parts| == 1 then parts[0]
    else parts[0] + sep + Join(parts[1..], sep)
  }

  /** `push` then `join` is `join` then one more separator and the new part. */
  lemma {:induction false} JoinSnoc(parts: seq<string>, x: string, sep: string)
    requires |parts| > 0
    ensures Join(parts + [x], sep) == Join(parts, sep) + sep + x
    decreases |parts|
  {
    if |parts| > 1 {
      assert (parts + [x])[1..] == parts[1..] + [x];
      JoinSnoc(parts[1..], x, sep);
    }
  }

  lemma JoinFour(a: string, b: string, c: string, d: string, sep: string)
    ensures Join([a, b, c, d], sep) == a + sep + b + sep + c + sep + d
  {
    assert Join([a], sep) == a;
    JoinSnoc([a], b, sep);
    assert [a] + [b] == [a, b];
    JoinSnoc([a, b], c, sep);
    assert [a, b] + [c] == [a, b, c];
    JoinSnoc([a, b, c], d, sep);
    assert [a, b, c] + [d] == [a, b, c, d];
  }

  /** Joining `n` parts adds exactly `n - 1` separators. */
  lemma {:induction false} JoinLength(parts: seq<string>, sep: string)
    requires |parts| > 0
    ensures |Join(parts, sep)| == TotalLength(parts) + (|parts| - 1) * |sep|
    decreases |parts|
  {
    if |parts| > 1 {
      JoinLength(parts[1..], sep);
    }
  }

  function TotalLength(parts: seq<string>): nat {
    if parts == [] then 0 else |parts[0]| + TotalLength(parts[1..])
  }

  predicate StartsWith(s: string, p: string) {
    |p| <= |s| && s[..|p|] == p
  }

  predicate EndsWith(s: string, p: string) {
    |p| <= |s| && s[|s| - |p|..] == p
  }
}
