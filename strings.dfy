/** The few string operations of the .NET library that the program relies on:
    `int.ToString()`, `string.PadLeft`, `string.Split(',')`, and the parsing
    of the decimal column number in a cursor escape that a terminal performs.
    Each comes with its inverse or a round-trip lemma. */
module Strings {

  /** `n` copies of `x`. */
  function Repeat<T>(x: T, n: nat): (r: seq<T>)
    ensures |r| == n
    ensures forall i :: 0 <= i < n ==> r[i] == x
  {
    if n == 0 then [] else [x] + Repeat(x, n - 1)
  }

  // Proof plumbing: small facts about sequence concatenation that line the
  // output of a method up with the function that specifies it. They state
  // nothing about the program.

  lemma RepeatSnoc<T>(x: T, n: nat)
    ensures Repeat(x, n + 1) == Repeat(x, n) + [x]
  {
  }

  lemma Pair<T>(s: seq<T>, a: T, b: T)
    ensures s + [a] + [b] == s + [a, b]
  {
  }

  lemma Associative<T>(a: seq<T>, b: seq<T>, c: seq<T>)
    ensures a + b + c == a + (b + c)
  {
  }

  lemma Associative5<T>(s: seq<T>, a: seq<T>, b: seq<T>, c: seq<T>, d: seq<T>)
    ensures s + a + b + c + d == s + (a + b + c + d)
  {
  }

  predicate IsDigit(ch: char) {
    '0' <= ch <= '9'
  }

  predicate IsDigits(s: string) {
    forall i :: 0 <= i < |s| ==> IsDigit(s[i])
  }

  function DigitChar(d: nat): (ch: char)
    requires d < 10
    ensures IsDigit(ch)
  {
    (48 + d) as char
  }

  function DigitValue(ch: char): nat
    requires IsDigit(ch)
  {
    ch as nat - 48
  }

  /** Decimal notation of a natural number, most significant digit first,
      without leading zeros (what `int.ToString()` gives for `n >= 0`). */
  function NatToString(n: nat): (r: string)
    ensures |r| >= 1 && IsDigits(r)
    ensures n < 10 ==> |r| == 1
    ensures n < 100 ==> |r| <= 2
    ensures n < 1000 ==> |r| <= 3
  {
    if n < 10 then [DigitChar(n)] else NatToString(n / 10) + [DigitChar(n % 10)]
  }

  /** `int.ToString()`: a minus sign in front of the digits of `-i` when `i < 0`. */
  function IntToString(i: int): (r: string)
    ensures |r| >= 1
    ensures i >= 0 <==> IsDigits(r)
    ensures 0 <= i < 1000 ==> |r| <= 3
  {
    if i < 0 then
      var r := "-" + NatToString(-i);
      assert !IsDigit(r[0]);
      r
    else NatToString(i)
  }

  /** The value of a run of decimal digits (what a terminal reads from the
      numeric parameter of an escape sequence). */
  function ParseNat(s: string): nat
    requires IsDigits(s)
  {
    if s == [] then 0 else 10 * ParseNat(s[..|s| - 1]) + DigitValue(s[|s| - 1])
  }

  /** Reading back the decimal notation of `n` gives `n`. */
  lemma {:induction false} ParseNatToString(n: nat)
    ensures ParseNat(NatToString(n)) == n
  {
    var s := NatToString(n);
    if n < 10 {
      assert s[..|s| - 1] == [];
    } else {
      assert s[..|s| - 1] == NatToString(n / 10);
      ParseNatToString(n / 10);
    }
  }

  /** `s.PadLeft(width, c)`: `s` itself when it is already `width` long or
      longer, otherwise `s` preceded by as many `c` as make it `width` long. */
  function PadLeft(s: string, width: nat, c: char): (r: string)
    ensures |r| == if |s| >= width then |s| else width
    ensures r[|r| - |s|..] == s
    ensures forall i :: 0 <= i < |r| - |s| ==> r[i] == c
  {
    if |s| >= width then s else Repeat(c, width - |s|) + s
  }

  /** `s.Split(',')`: the maximal comma-free pieces of `s`, in order; an
      empty string and empty pieces between adjacent commas are kept. */
  function Split(s: string): (r: seq<string>)
    ensures |r| >= 1
    ensures forall i :: 0 <= i < |r| ==> ',' !in r[i]
  {
    if s == [] then [""]
    else
      var rest := Split(s[1..]);
      if s[0] == ',' then [""] + rest else [[s[0]] + rest[0]] + rest[1..]
  }

  /** The pieces glued back together with a comma between each two. */
  function Join(parts: seq<string>): string
    requires |parts| >= 1
  {
    if |parts| == 1 then parts[0] else parts[0] + "," + Join(parts[1..])
  }

  /** Splitting loses nothing: the pieces glue back to the original text. */
  lemma {:induction false} JoinSplit(s: string)
    ensures Join(Split(s)) == s
  {
    if s != [] {
      var rest := Split(s[1..]);
      JoinSplit(s[1..]);
      if s[0] == ',' {
        assert Split(s) == [""] + rest;
        assert ([""] + rest)[1..] == rest;
      } else {
        var r := [[s[0]] + rest[0]] + rest[1..];
        assert Split(s) == r;
        if |rest| == 1 {
          assert Join(r) == [s[0]] + rest[0];
        } else {
          assert r[1..] == rest[1..];
          assert Join(r) == [s[0]] + rest[0] + "," + Join(rest[1..]);
        }
        assert [s[0]] + s[1..] == s;
      }
    }
  }

  /** A comma-free text followed by a comma splits into that text and the
      pieces of the remainder. */
  lemma {:induction false} SplitAfterPiece(a: string, t: string)
    requires ',' !in a
    ensures Split(a + "," + t) == [a] + Split(t)
  {
    if a == [] {
      assert a + "," + t == [','] + t;
      assert (a + "," + t)[1..] == t;
    } else {
      assert (a + "," + t)[1..] == a[1..] + "," + t;
      assert a[0] != ',';
      SplitAfterPiece(a[1..], t);
      assert [a[0]] + a[1..] == a;
    }
  }

  /** A comma-free text is one piece. */
  lemma {:induction false} SplitPiece(a: string)
    requires ',' !in a
    ensures Split(a) == [a]
  {
    if a != [] {
      assert a[0] != ',';
      SplitPiece(a[1..]);
      assert [a[0]] + a[1..] == a;
    }
  }

  /** Joining comma-free pieces and splitting again gives the same pieces. */
  lemma {:induction false} SplitJoin(parts: seq<string>)
    requires |parts| >= 1
    requires forall i :: 0 <= i < |parts| ==> ',' !in parts[i]
    ensures Split(Join(parts)) == parts
  {
    if |parts| == 1 {
      SplitPiece(parts[0]);
    } else {
      SplitJoin(parts[1..]);
      SplitAfterPiece(parts[0], Join(parts[1..]));
      assert [parts[0]] + parts[1..] == parts;
    }
  }
}
