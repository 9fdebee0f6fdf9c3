/** The text the generator writes into inline-assembly templates and
    constraint strings: naturals in decimal or lower-case hexadecimal, as
    `std::ostream` prints them, and comma-separated lists. */
module TextFormat {

  predicate IsBase(b: nat) {
    b == 10 || b == 16
  }

  function DigitChar(d: nat): (c: char)
    requires d < 16
  {
    if d < 10 then (48 + d) as char else (97 + d - 10) as char
  }

  predicate IsDigitChar(c: char, b: nat) {
    (48 <= c as int <= 57 && (c as int) - 48 < b) || (b == 16 && 97 <= c as int <= 102)
  }

  function DigitValue(c: char): (d: nat)
    requires 48 <= c as int <= 57 || 97 <= c as int <= 102
    ensures d < 16
  {
    if c as int <= 57 then (c as int) - 48 else (c as int) - 97 + 10
  }

  /** `n` in base `b`, most significant digit first, without leading
      zeros. */
  function NatToString(n: nat, b: nat): (s: string)
    requires IsBase(b)
    ensures |s| >= 1
    ensures forall i :: 0 <= i < |s| ==> IsDigitChar(s[i], b)
    ensures |s| > 1 ==> s[0] != '0'
  {
    if n < b then [DigitChar(n)] else NatToString(n / b, b) + [DigitChar(n % b)]
  }

  function ParseNat(s: string, b: nat): nat
    requires IsBase(b) && forall i :: 0 <= i < |s| ==> IsDigitChar(s[i], b)
  {
    if |s| == 0 then 0
    else
      assert IsDigitChar(s[|s| - 1], b);
      ParseNat(s[..|s| - 1], b) * b + DigitValue(s[|s| - 1])
  }

  function Decimal(n: nat): string {
    NatToString(n, 10)
  }

  function Hex(n: nat): string {
    NatToString(n, 16)
  }

  /** Printing is undone by parsing: the rendering is unambiguous. */
  lemma {:induction false} ParsePrinted(n: nat, b: nat)
    requires IsBase(b)
    ensures ParseNat(NatToString(n, b), b) == n
  {
    var s := NatToString(n, b);
    if n < b {
      assert s[..0] == [];
      assert DigitValue(DigitChar(n)) == n;
    } else {
      ParsePrinted(n / b, b);
      assert s[..|s| - 1] == NatToString(n / b, b);
      assert DigitValue(DigitChar(n % b)) == n % b;
    }
  }

  lemma PrintedInjective(m: nat, n: nat, b: nat)
    requires IsBase(b) && NatToString(m, b) == NatToString(n, b)
    ensures m == n
  {
    ParsePrinted(m, b);
    ParsePrinted(n, b);
  }

  /** Items separated by one character. */
  function Join(items: seq<string>, sep: char): string {
    if |items| == 0 then ""
    else if |items| == 1 then items[0]
    else items[0] + [sep] + Join(items[1..], sep)
  }

  /** Position of the first `sep` in `s`, or `|s|`. */
  function FirstSep(s: string, sep: char): (i: nat)
    ensures i <= |s| && (i < |s| ==> s[i] == sep)
    ensures forall j :: 0 <= j < i ==> s[j] != sep
  {
    if |s| == 0 then 0 else if s[0] == sep then 0 else 1 + FirstSep(s[1..], sep)
  }

  /** The pieces between separators. */
  function Split(s: string, sep: char): (items: seq<string>)
    ensures |items| >= 1
    decreases |s|
  {
    var i := FirstSep(s, sep);
    if i == |s| then [s] else [s[..i]] + Split(s[i + 1..], sep)
  }

  predicate NoSep(items: seq<string>, sep: char) {
    forall k, j :: 0 <= k < |items| && 0 <= j < |items[k]| ==> items[k][j] != sep
  }

  lemma FirstSepOf(a: string, rest: string, sep: char)
    requires forall j :: 0 <= j < |a| ==> a[j] != sep
    ensures FirstSep(a + rest, sep) == |a| + FirstSep(rest, sep)
    decreases |a|
  {
    if |a| > 0 {
      assert (a + rest)[1..] == a[1..] + rest;
      FirstSepOf(a[1..], rest, sep);
    } else {
      assert a + rest == rest;
    }
  }

  /** Splitting a joined list gives the list back. */
  lemma {:induction false} SplitJoin(items: seq<string>, sep: char)
    requires |items| >= 1 && NoSep(items, sep)
    ensures Split(Join(items, sep), sep) == items
  {
    var a := items[0];
    assert forall j :: 0 <= j < |a| ==> a[j] != sep;
    if |items| == 1 {
      FirstSepOf(a, "", sep);
      assert a + "" == a;
    } else {
      NoSepTail(items, sep);
      SplitJoin(items[1..], sep);
      SplitCons(a, Join(items[1..], sep), sep);
    }
  }

  lemma NoSepTail(items: seq<string>, sep: char)
    requires |items| >= 1 && NoSep(items, sep)
    ensures NoSep(items[1..], sep)
  {
    forall k, j | 0 <= k < |items| - 1 && 0 <= j < |items[1..][k]|
      ensures items[1..][k][j] != sep
    {
      assert items[1..][k] == items[k + 1];
    }
  }

  /** A piece without separators, a separator, and the rest. */
  lemma SplitCons(a: string, rest: string, sep: char)
    requires forall j :: 0 <= j < |a| ==> a[j] != sep
    ensures Split(a + [sep] + rest, sep) == [a] + Split(rest, sep)
  {
    var s := a + [sep] + rest;
    FirstSepOf(a, [sep] + rest, sep);
    assert s == a + ([sep] + rest);
    assert s[..|a|] == a && s[|a| + 1..] == rest;
  }

  lemma {:induction false} JoinSnoc(items: seq<string>, x: string, sep: char)
    requires |items| >= 1
    ensures Join(items + [x], sep) == Join(items, sep) + [sep] + x
    decreases |items|
  {
    var ys := items + [x];
    if |items| == 1 {
      assert ys[1..] == [x];
      assert Join(ys, sep) == items[0] + [sep] + x;
    } else {
      assert ys[1..] == items[1..] + [x];
      JoinSnoc(items[1..], x, sep);
      var a, r := items[0], Join(items[1..], sep);
      assert Join(ys, sep) == a + [sep] + (r + [sep] + x);
      assert Join(items, sep) == a + [sep] + r;
    }
  }

  /** Joining one more item of a list. */
  lemma JoinStep(items: seq<string>, ii: nat, sep: char)
    requires 1 <= ii < |items|
    ensures Join(items[..ii + 1], sep) == Join(items[..ii], sep) + [sep] + items[ii]
  {
    assert items[..ii + 1] == items[..ii] + [items[ii]];
    JoinSnoc(items[..ii], items[ii], sep);
  }
}
