/** String helpers that the naming rules are written in: `String.Join`,
    `String.Replace` on one character, character counting and the decimal
    rendering of `StringBuilder.Append(int)`. */
module Text {

  /** `parts` separated by `sep`, as `String.Join` builds it. Written from the
      right, so that adding one part is one unfolding: this is the order in
      which the source's `needComma` loops append. */
  function Join(sep: string, parts: seq<string>): string
    decreases |parts|
  {
    if |parts| == 0 then ""
    else if |parts| == 1 then parts[0]
    else Join(sep, parts[..|parts| - 1]) + sep + parts[|parts| - 1]
  }

  /** Joining one more part appends the separator only when something precedes it. */
  lemma JoinSnoc(sep: string, parts: seq<string>, last: string)
    ensures Join(sep, parts + [last]) == if |parts| == 0 then last else Join(sep, parts) + sep + last
  {
    assert (parts + [last])[..|parts|] == parts;
  }

  /** Extending a prefix of `parts` by one part, as a `needComma` loop does. */
  lemma JoinStep(sep: string, parts: seq<string>, i: nat)
    requires i < |parts|
    ensures Join(sep, parts[..i + 1]) == if i == 0 then parts[i] else Join(sep, parts[..i]) + sep + parts[i]
  {
    assert parts[..i + 1] == parts[..i] + [parts[i]];
    JoinSnoc(sep, parts[..i], parts[i]);
  }

  /** Regrouping of appended strings, as a `StringBuilder` sees them. */
  lemma AppendAssoc(a: string, b: string, c: string)
    ensures (a + b) + c == a + (b + c)
  {
  }

  lemma AppendAssoc4(a: string, b: string, c: string, d: string)
    ensures ((a + b) + c) + d == a + ((b + c) + d)
  {
    AppendAssoc(a, b, c);
    AppendAssoc(a, b + c, d);
  }

  /** Number of occurrences of `c` in `s`. */
  function Count(s: string, c: char): nat
    decreases |s|
  {
    if |s| == 0 then 0
    else Count(s[..|s| - 1], c) + (if s[|s| - 1] == c then 1 else 0)
  }

  lemma {:induction false} CountConcat(a: string, b: string, c: char)
    ensures Count(a + b, c) == Count(a, c) + Count(b, c)
    decreases |b|
  {
    if |b| == 0 {
      assert a + b == a;
    } else {
      CountConcat(a, b[..|b| - 1], c);
      assert (a + b)[..|a + b| - 1] == a + b[..|b| - 1];
    }
  }

  lemma CountAbsent(s: string, c: char)
    requires c !in s
    ensures Count(s, c) == 0
    decreases |s|
  {
    if |s| > 0 {
      assert forall i :: 0 <= i < |s| - 1 ==> s[..|s| - 1][i] == s[i];
      CountAbsent(s[..|s| - 1], c);
    }
  }

  /** Total occurrences of `c` over all `parts`. */
  function CountAll(parts: seq<string>, c: char): nat
    decreases |parts|
  {
    if |parts| == 0 then 0
    else CountAll(parts[..|parts| - 1], c) + Count(parts[|parts| - 1], c)
  }

  /** A joined list holds exactly one separator between each two consecutive
      parts, on top of the separators inside the parts themselves. */
  lemma {:induction false} CountJoin(sep: char, parts: seq<string>)
    requires |parts| > 0
    ensures Count(Join([sep], parts), sep) == CountAll(parts, sep) + |parts| - 1
    decreases |parts|
  {
    if |parts| > 1 {
      var init := parts[..|parts| - 1];
      CountJoin(sep, init);
      CountConcat(Join([sep], init), [sep], sep);
      CountConcat(Join([sep], init) + [sep], parts[|parts| - 1], sep);
      assert Count([sep], sep) == 1 by {
        assert [sep][..0] == [];
      }
    }
  }

  /** `s` with every `from` replaced by `to`, as `String.Replace` does for
      one-character strings. */
  function ReplaceChar(s: string, from: char, to: char): (r: string)
    ensures |r| == |s|
    ensures forall i :: 0 <= i < |s| ==> r[i] == (if s[i] == from then to else s[i])
    decreases |s|
  {
    if |s| == 0 then ""
    else [if s[0] == from then to else s[0]] + ReplaceChar(s[1..], from, to)
  }

  predicate IsDigit(c: char) {
    '0' <= c <= '9'
  }

  predicate AllDigits(s: string) {
    forall i :: 0 <= i < |s| ==> IsDigit(s[i])
  }

  function DigitChar(d: nat): (c: char)
    requires d < 10
    ensures IsDigit(c)
  {
    (48 + d) as char
  }

  function DigitValue(c: char): nat
    requires IsDigit(c)
  {
    c as int - 48
  }

  /** Invariant-culture decimal rendering of a non-negative integer
      (`StringBuilder.Append(int)`, `int.ToString()`). */
  function NatToString(n: nat): (r: string)
    ensures |r| > 0
    ensures AllDigits(r)
    decreases n
  {
    if n < 10 then [DigitChar(n)]
    else NatToString(n / 10) + [DigitChar(n % 10)]
  }

  /** Decimal parsing: the reading direction of `NatToString`. */
  function ParseNat(s: string): nat
    requires AllDigits(s)
    decreases |s|
  {
    if |s| == 0 then 0
    else ParseNat(s[..|s| - 1]) * 10 + DigitValue(s[|s| - 1])
  }

  /** A rendered position reads back as the same position. */
  lemma {:induction false} ParseNatToString(n: nat)
    ensures ParseNat(NatToString(n)) == n
    decreases n
  {
    var s := NatToString(n);
    if n >= 10 {
      ParseNatToString(n / 10);
      assert s[..|s| - 1] == NatToString(n / 10);
    }
  }
}
