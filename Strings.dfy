/**
 * The parts of Swift's standard library that the subnet code relies on:
 * `split(separator:)` (which omits empty subsequences by default),
 * `joined(separator:)` and the decimal rendering of an integer inside a
 * string interpolation (`"\(i)"`).
 */
module Strings {

  /** The pieces of `s` between separators, empty pieces included:
      `Pieces("a..b", '.') == ["a", "", "b"]`. */
  function Pieces(s: string, sep: char): (ps: seq<string>)
    ensures |ps| >= 1
  {
    if s == [] then [[]]
    else
      var rest := Pieces(s[1..], sep);
      if s[0] == sep then [[]] + rest
      else [[s[0]] + rest[0]] + rest[1..]
  }

  /** Drops the empty strings, keeping the order of the others. */
  function NonEmpty(ps: seq<string>): (r: seq<string>)
    ensures forall i :: 0 <= i < |r| ==> r[i] != []
    ensures forall x :: x in r ==> x in ps
  {
    if ps == [] then []
    else if ps[0] == [] then NonEmpty(ps[1..])
    else [ps[0]] + NonEmpty(ps[1..])
  }

  /** Swift's `s.split(separator: sep)`: the non-empty pieces between
      separators. */
  function Split(s: string, sep: char): seq<string>
  {
    NonEmpty(Pieces(s, sep))
  }

  /** Swift's `parts.joined(separator: [sep])`. */
  function Join(parts: seq<string>, sep: char): string
  {
    if |parts| == 0 then []
    else if |parts| == 1 then parts[0]
    else parts[0] + [sep] + Join(parts[1..], sep)
  }

  ghost predicate SepFree(s: string, sep: char)
  {
    forall i :: 0 <= i < |s| ==> s[i] != sep
  }

  /** Joining the pieces gives back the original text. */
  lemma {:induction false} JoinPieces(s: string, sep: char)
    ensures Join(Pieces(s, sep), sep) == s
  {
    if s != [] {
      var rest := Pieces(s[1..], sep);
      JoinPieces(s[1..], sep);
      if s[0] != sep && |rest| > 1 {
        assert Join(rest, sep) == rest[0] + [sep] + Join(rest[1..], sep);
      }
    }
  }

  /** No piece contains the separator. */
  lemma {:induction false} PiecesSepFree(s: string, sep: char)
    ensures forall i :: 0 <= i < |Pieces(s, sep)| ==> SepFree(Pieces(s, sep)[i], sep)
  {
    if s != [] {
      PiecesSepFree(s[1..], sep);
    }
  }

  /** A text without separators is a single piece. */
  lemma {:induction false} PiecesOfSepFree(s: string, sep: char)
    requires SepFree(s, sep)
    ensures Pieces(s, sep) == [s]
  {
    if s != [] {
      assert SepFree(s[1..], sep);
      PiecesOfSepFree(s[1..], sep);
      assert [s[0]] + s[1..] == s;
    }
  }

  /** One step of `Pieces` on a text that starts with `c`. */
  lemma PiecesCons(c: char, t: string, sep: char)
    ensures Pieces([c] + t, sep) ==
      if c == sep then [[]] + Pieces(t, sep) else [[c] + Pieces(t, sep)[0]] + Pieces(t, sep)[1..]
  {
    assert ([c] + t)[0] == c && ([c] + t)[1..] == t;
  }

  /** A separator between two texts separates their pieces. */
  lemma {:induction false} PiecesAround(a: string, sep: char, b: string)
    ensures Pieces(a + [sep] + b, sep) == Pieces(a, sep) + Pieces(b, sep)
  {
    if a == [] {
      assert a + [sep] + b == [sep] + b;
      PiecesCons(sep, b, sep);
    } else {
      var t := a[1..] + [sep] + b;
      assert a + [sep] + b == [a[0]] + t;
      assert a == [a[0]] + a[1..];
      PiecesAround(a[1..], sep, b);
      PiecesCons(a[0], t, sep);
      PiecesCons(a[0], a[1..], sep);
    }
  }

  lemma {:induction false} NonEmptyAppend(xs: seq<string>, ys: seq<string>)
    ensures NonEmpty(xs + ys) == NonEmpty(xs) + NonEmpty(ys)
  {
    if xs == [] {
      assert xs + ys == ys;
    } else {
      assert (xs + ys)[1..] == xs[1..] + ys;
      NonEmptyAppend(xs[1..], ys);
    }
  }

  /** Every component `Split` yields is non-empty and free of the
      separator. */
  lemma SplitComponents(s: string, sep: char)
    ensures forall i :: 0 <= i < |Split(s, sep)| ==> Split(s, sep)[i] != [] && SepFree(Split(s, sep)[i], sep)
  {
    PiecesSepFree(s, sep);
    forall i | 0 <= i < |Split(s, sep)|
      ensures SepFree(Split(s, sep)[i], sep)
    {
      var x := Split(s, sep)[i];
      assert x in Pieces(s, sep);
    }
  }

  /** Splitting `a + [sep] + b` splits `a` and `b` separately; empty
      components on either side disappear. */
  lemma SplitAround(a: string, sep: char, b: string)
    ensures Split(a + [sep] + b, sep) == Split(a, sep) + Split(b, sep)
  {
    PiecesAround(a, sep, b);
    NonEmptyAppend(Pieces(a, sep), Pieces(b, sep));
  }

  /** `split` omits empty components: a run of two separators splits
      like a single one. */
  lemma SplitDropsEmpty(a: string, sep: char, b: string)
    ensures Split(a + [sep, sep] + b, sep) == Split(a + [sep] + b, sep)
  {
    assert a + [sep, sep] + b == a + [sep] + ([sep] + b);
    SplitAround(a, sep, [sep] + b);
    assert [sep] + b == [] + [sep] + b;
    SplitAround([], sep, b);
    assert Split([], sep) == [] by {
      assert NonEmpty([[]]) == NonEmpty([]);
    }
    SplitAround(a, sep, b);
  }

  /** Round trip without dropping: the separator-delimited pieces of the
      join of one or more separator-free components are exactly those
      components, so the join holds one separator between neighbours and
      none at either end. */
  lemma {:induction false} PiecesJoin(parts: seq<string>, sep: char)
    requires |parts| >= 1
    requires forall i :: 0 <= i < |parts| ==> SepFree(parts[i], sep)
    ensures Pieces(Join(parts, sep), sep) == parts
  {
    PiecesOfSepFree(parts[0], sep);
    if |parts| > 1 {
      PiecesAround(parts[0], sep, Join(parts[1..], sep));
      PiecesJoin(parts[1..], sep);
      assert parts == [parts[0]] + parts[1..];
    }
  }

  /** Round trip: splitting the join of non-empty, separator-free
      components gives the components back. */
  lemma {:induction false} SplitJoin(parts: seq<string>, sep: char)
    requires forall i :: 0 <= i < |parts| ==> parts[i] != [] && SepFree(parts[i], sep)
    ensures Split(Join(parts, sep), sep) == parts
  {
    if |parts| == 0 {
      assert Pieces([], sep) == [[]];
      assert NonEmpty([[]]) == NonEmpty([]);
    } else if |parts| == 1 {
      PiecesOfSepFree(parts[0], sep);
      assert NonEmpty([parts[0]]) == [parts[0]] + NonEmpty([]);
    } else {
      SplitAround(parts[0], sep, Join(parts[1..], sep));
      PiecesOfSepFree(parts[0], sep);
      SplitJoin(parts[1..], sep);
    }
  }

  /** The digit character for `d`. */
  function DigitChar(d: nat): (c: char)
    requires d < 10
    ensures '0' <= c <= '9'
  {
    (('0' as int) + d) as char
  }

  function DigitValue(c: char): (d: nat)
    requires '0' <= c <= '9'
    ensures d < 10 && DigitChar(d) == c
  {
    (c as int) - ('0' as int)
  }

  predicate IsDigits(s: string)
  {
    forall i :: 0 <= i < |s| ==> '0' <= s[i] <= '9'
  }

  /** The decimal text Swift interpolates for a non-negative integer:
      at least one digit, digits only, and no leading zero except for 0
      itself. */
  function Decimal(n: nat): (s: string)
    ensures |s| >= 1 && IsDigits(s)
    ensures s[0] == '0' ==> n == 0
  {
    if n < 10 then [DigitChar(n)] else Decimal(n / 10) + [DigitChar(n % 10)]
  }

  /** The value of a string of decimal digits. */
  function ParseDecimal(s: string): nat
    requires IsDigits(s)
  {
    if s == [] then 0 else ParseDecimal(s[..|s| - 1]) * 10 + DigitValue(s[|s| - 1])
  }

  /** A digit string in canonical form: one digit at least, and no
      leading zero unless it is "0". */
  predicate Canonical(s: string)
  {
    |s| >= 1 && IsDigits(s) && (s[0] == '0' ==> |s| == 1)
  }

  /** `Decimal` is the only canonical text of its value: any canonical
      digit string is the decimal text of the number it denotes. */
  lemma {:induction false} DecimalOfCanonical(s: string)
    requires Canonical(s)
    ensures s == Decimal(ParseDecimal(s))
  {
    var t, c := s[..|s| - 1], s[|s| - 1];
    if |s| == 1 {
      assert t == [];
    } else {
      assert Canonical(t) && t[0] == s[0];
      DecimalOfCanonical(t);
      var n := ParseDecimal(s);
      assert n == ParseDecimal(t) * 10 + DigitValue(c);
      assert ParseDecimal(t) >= 1;
      assert n / 10 == ParseDecimal(t) && n % 10 == DigitValue(c);
      assert s == t + [c];
    }
  }

  /** Round trip: reading back the decimal text of `n` gives `n`. */
  lemma {:induction false} ParseDecimalOfDecimal(n: nat)
    ensures ParseDecimal(Decimal(n)) == n
  {
    var s := Decimal(n);
    if n >= 10 {
      ParseDecimalOfDecimal(n / 10);
      assert s[..|s| - 1] == Decimal(n / 10);
    } else {
      assert s[..|s| - 1] == [];
    }
  }

  /** Different numbers have different decimal texts. */
  lemma DecimalInjective(m: nat, n: nat)
    ensures Decimal(m) == Decimal(n) ==> m == n
  {
    ParseDecimalOfDecimal(m);
    ParseDecimalOfDecimal(n);
  }
}
