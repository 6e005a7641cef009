/**
 * The few string operations of Python's `str` that the core relies on:
 * `sep.join(parts)`, `s.split(c)` for a one-character separator, `s.rfind(c)`
 * with the slicing it feeds, and decimal digits.
 */
module Text {

  /** Python's `sep.join(parts)`. */
  function Join(sep: string, parts: seq<string>): string
    decreases |parts|
  {
    if |parts| == 0 then ""
    else if |parts| == 1 then parts[0]
    else parts[0] + sep + Join(sep, parts[1..])
  }

  /** Python's `s.split(c)`: the pieces between occurrences of `c`. */
  function Split(s: string, c: char): (parts: seq<string>)
    ensures |parts| >= 1
    ensures forall i :: 0 <= i < |parts| ==> c !in parts[i]
    decreases |s|
  {
    if |s| == 0 then [""]
    else
      var rest := Split(s[1..], c);
      if s[0] == c then [""] + rest
      else [[s[0]] + rest[0]] + rest[1..]
  }

  function Last<T>(xs: seq<T>): T
    requires |xs| > 0
  {
    xs[|xs| - 1]
  }

  /** Joining the pieces of a split with the separator gives back the string. */
  lemma {:induction false} JoinSplit(s: string, c: char)
    ensures Join([c], Split(s, c)) == s
    decreases |s|
  {
    if |s| > 0 {
      var rest := Split(s[1..], c);
      JoinSplit(s[1..], c);
      if s[0] == c {
        assert Split(s, c) == [""] + rest;
        assert ([""] + rest)[1..] == rest;
      } else {
        var parts := [[s[0]] + rest[0]] + rest[1..];
        assert Split(s, c) == parts;
        if |rest| == 1 {
          assert Join([c], rest) == rest[0];
        } else {
          assert parts[1..] == rest[1..];
          assert Join([c], rest) == rest[0] + [c] + Join([c], rest[1..]);
        }
      }
    }
  }

  /** A string without the separator splits into itself. */
  lemma {:induction false} SplitNoSeparator(p: string, c: char)
    requires c !in p
    ensures Split(p, c) == [p]
    decreases |p|
  {
    if |p| > 0 {
      assert p[1..] == p[1..] && c !in p[1..];
      SplitNoSeparator(p[1..], c);
      assert [p[0]] + p[1..] == p;
    }
  }

  /** A separator-free prefix followed by the separator is split off as the first piece. */
  lemma {:induction false} SplitAfterPiece(p: string, c: char, r: string)
    requires c !in p
    ensures Split(p + [c] + r, c) == [p] + Split(r, c)
    decreases |p|
  {
    if |p| == 0 {
      assert p + [c] + r == [c] + r;
      assert ([c] + r)[1..] == r;
    } else {
      var s := p + [c] + r;
      assert s[0] == p[0] && s[1..] == p[1..] + [c] + r;
      SplitAfterPiece(p[1..], c, r);
      assert [p[0]] + p[1..] == p;
    }
  }

  /** Splitting undoes joining, provided no piece contains the separator. */
  lemma {:induction false} SplitJoin(parts: seq<string>, c: char)
    requires |parts| >= 1
    requires forall i :: 0 <= i < |parts| ==> c !in parts[i]
    ensures Split(Join([c], parts), c) == parts
    decreases |parts|
  {
    if |parts| == 1 {
      SplitNoSeparator(parts[0], c);
    } else {
      SplitJoin(parts[1..], c);
      SplitAfterPiece(parts[0], c, Join([c], parts[1..]));
      assert [parts[0]] + parts[1..] == parts;
    }
  }

  /** Python's `s.rfind(c)`: the last index of `c` in `s`, or -1. */
  function LastIndexOf(s: string, c: char): (r: int)
    ensures -1 <= r < |s|
    ensures r == -1 <==> c !in s
    ensures r >= 0 ==> s[r] == c
    ensures forall k :: r < k < |s| ==> s[k] != c
    decreases |s|
  {
    if |s| == 0 then -1
    else if s[|s| - 1] == c then |s| - 1
    else
      assert s[..|s| - 1] + [s[|s| - 1]] == s;
      LastIndexOf(s[..|s| - 1], c)
  }

  /** Python's `s[:i]` for an index that may be -1, as `rfind` returns. */
  function PrefixTo(s: string, i: int): (r: string)
    requires -1 <= i <= |s|
    ensures i >= 0 ==> r == s[..i]
    ensures i == -1 ==> |r| == if |s| == 0 then 0 else |s| - 1
  {
    if i >= 0 then s[..i]
    else if |s| == 0 then ""
    else s[..|s| - 1]
  }

  /** The last piece of a split is the text after the last separator. */
  lemma {:induction false} LastPieceIsAfterLastSeparator(s: string, c: char)
    ensures Last(Split(s, c)) == s[LastIndexOf(s, c) + 1..]
    decreases |s|
  {
    if c !in s {
      LastPieceWithoutSeparator(s, c);
    } else {
      LastPieceIsAfterLastSeparator(s[1..], c);
      LastIndexShift(s, c);
      if LastIndexOf(s[1..], c) >= 0 {
        LastPieceWhenTailHasSeparator(s, c);
      } else {
        LastPieceWhenOnlyHeadIsSeparator(s, c);
      }
    }
  }

  lemma LastPieceWithoutSeparator(s: string, c: char)
    requires c !in s
    ensures Last(Split(s, c)) == s[LastIndexOf(s, c) + 1..]
  {
    SplitNoSeparator(s, c);
    assert Last(Split(s, c)) == s;
    assert s[0..] == s;
  }

  lemma LastPieceWhenTailHasSeparator(s: string, c: char)
    requires |s| > 0
    requires LastIndexOf(s[1..], c) >= 0
    requires Last(Split(s[1..], c)) == s[1..][LastIndexOf(s[1..], c) + 1..]
    requires LastIndexOf(s, c) == LastIndexOf(s[1..], c) + 1
    ensures Last(Split(s, c)) == s[LastIndexOf(s, c) + 1..]
  {
    var t := s[1..];
    var i := LastIndexOf(t, c);
    var rest := Split(t, c);
    SplitHasTwoPieces(t, c, i);
    var parts := Split(s, c);
    if s[0] == c {
      assert parts == [""] + rest;
    } else {
      assert parts == [[s[0]] + rest[0]] + rest[1..];
    }
    assert Last(parts) == Last(rest);
    assert s[i + 2..] == t[i + 1..];
  }

  lemma LastPieceWhenOnlyHeadIsSeparator(s: string, c: char)
    requires |s| > 0 && s[0] == c
    requires LastIndexOf(s[1..], c) == -1
    requires Last(Split(s[1..], c)) == s[1..][LastIndexOf(s[1..], c) + 1..]
    requires LastIndexOf(s, c) == 0
    ensures Last(Split(s, c)) == s[LastIndexOf(s, c) + 1..]
  {
    var t := s[1..];
    var rest := Split(t, c);
    var parts := Split(s, c);
    assert parts == [""] + rest;
    assert Last(rest) == t;
    assert Last(parts) == parts[|parts| - 1] == rest[|rest| - 1];
  }

  /** A string holding the separator splits into at least two pieces. */
  lemma {:induction false} SplitHasTwoPieces(s: string, c: char, i: int)
    requires 0 <= i < |s| && s[i] == c
    ensures |Split(s, c)| >= 2
    decreases |s|
  {
    if s[0] != c {
      SplitHasTwoPieces(s[1..], c, i - 1);
    }
  }

  /** `rfind` on `s` relates to `rfind` on `s` without its first character. */
  lemma LastIndexShift(s: string, c: char)
    requires |s| > 0
    ensures LastIndexOf(s[1..], c) >= 0 ==> LastIndexOf(s, c) == LastIndexOf(s[1..], c) + 1
    ensures LastIndexOf(s[1..], c) == -1 ==> LastIndexOf(s, c) == if s[0] == c then 0 else -1
  {
    var j := LastIndexOf(s[1..], c);
    if j >= 0 {
      assert s[j + 1] == c;
    }
  }

  /** The last separator of `p + [c] + q` is the one before `q` when `q` has none. */
  lemma {:induction false} LastIndexBeforeTail(p: string, c: char, q: string)
    requires c !in q
    ensures LastIndexOf(p + [c] + q, c) == |p|
    decreases |q|
  {
    var s := p + [c] + q;
    if |q| == 0 {
      assert s[|s| - 1] == c;
    } else {
      var init := q[..|q| - 1];
      assert q[|q| - 1] in q;
      assert c !in init by {
        forall k | 0 <= k < |init| ensures init[k] != c {
          assert init[k] == q[k];
        }
      }
      LastIndexBeforeTail(p, c, init);
      assert s[..|s| - 1] == p + [c] + init;
    }
  }

  /** The last piece of a split is what follows the last separator. */
  lemma LastPieceAfterSeparator(p: string, c: char, q: string)
    requires c !in q
    ensures Last(Split(p + [c] + q, c)) == q
  {
    LastPieceIsAfterLastSeparator(p + [c] + q, c);
    LastIndexBeforeTail(p, c, q);
    assert (p + [c] + q)[|p| + 1..] == q;
  }

  /** A string without the separator is its own last piece. */
  lemma LastPieceWithoutAnySeparator(q: string, c: char)
    requires c !in q
    ensures Last(Split(q, c)) == q
  {
    SplitNoSeparator(q, c);
  }

  /** `k + "=" + v` splits back into `[k, v]` when neither holds the separator. */
  lemma SplitPair(k: string, c: char, v: string)
    requires c !in k && c !in v
    ensures Split(k + [c] + v, c) == [k, v]
  {
    SplitAfterPiece(k, c, v);
    SplitNoSeparator(v, c);
  }

  predicate IsDigit(ch: char) {
    '0' <= ch <= '9'
  }

  predicate AllDigits(s: string) {
    forall i :: 0 <= i < |s| ==> IsDigit(s[i])
  }

  function DigitChar(d: nat): (ch: char)
    requires d < 10
    ensures IsDigit(ch)
  {
    ('0' as int + d) as char
  }

  function DigitValue(ch: char): (d: nat)
    requires IsDigit(ch)
    ensures d < 10 && DigitChar(d) == ch
  {
    ch as int - '0' as int
  }

  /** Python's `str(n)` for a non-negative integer. */
  function NatToString(n: nat): (s: string)
    ensures |s| >= 1 && AllDigits(s)
    decreases n
  {
    if n < 10 then [DigitChar(n)]
    else NatToString(n / 10) + [DigitChar(n % 10)]
  }

  /** The value of a string of decimal digits, as Python's `int(s)` computes it. */
  function StringToNat(s: string): nat
    requires AllDigits(s)
    decreases |s|
  {
    if |s| == 0 then 0
    else 10 * StringToNat(s[..|s| - 1]) + DigitValue(s[|s| - 1])
  }

  /** Reading back the decimal digits of `n` gives `n`. */
  lemma {:induction false} StringToNatOfNatToString(n: nat)
    ensures StringToNat(NatToString(n)) == n
    decreases n
  {
    var s := NatToString(n);
    if n >= 10 {
      StringToNatOfNatToString(n / 10);
      assert s[..|s| - 1] == NatToString(n / 10);
    }
  }
}
