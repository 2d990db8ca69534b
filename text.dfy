/**
 * The string operations of Rust's standard library that the program uses:
 * `str::split` on one character, `[&str]::join` with one character, and the
 * decimal rendering of an unsigned integer.
 */
module Text {

  import opened Base

  /** Every character of `s` is a decimal digit. */
  predicate AllDigits(s: string)
  {
    forall k :: 0 <= k < |s| ==> '0' <= s[k] <= '9'
  }

  /** `s.split(c)`: the maximal pieces of `s` between occurrences of `c`, in order. */
  function Split(s: string, c: char): (r: seq<string>)
    ensures |r| >= 1
    ensures forall k :: 0 <= k < |r| ==> c !in r[k]
    decreases |s|
  {
    if s == [] then [[]]
    else
      var rest := Split(s[1..], c);
      if s[0] == c then [[]] + rest
      else [[s[0]] + rest[0]] + rest[1..]
  }

  /** `fields.join(c)`: the fields separated by single occurrences of `c`. */
  function Join(fields: seq<string>, c: char): string
  {
    if |fields| == 0 then []
    else if |fields| == 1 then fields[0]
    else fields[0] + [c] + Join(fields[1..], c)
  }

  /** Joining a first field onto further fields. */
  lemma JoinCons(x: string, rest: seq<string>, c: char)
    requires rest != []
    ensures Join([x] + rest, c) == x + [c] + Join(rest, c)
  {
  }

  /** A string without the separator is a single piece. */
  lemma {:induction false} SplitWithoutSeparator(s: string, c: char)
    requires c !in s
    ensures Split(s, c) == [s]
    decreases |s|
  {
    if s != [] {
      SplitWithoutSeparator(s[1..], c);
      assert s == [s[0]] + s[1..];
    }
  }

  /** A separator after a separator-free prefix ends the first piece there. */
  lemma {:induction false} SplitAtFirstSeparator(a: string, b: string, c: char)
    requires c !in a
    ensures Split(a + [c] + b, c) == [a] + Split(b, c)
    decreases |a|
  {
    if a == [] {
      assert a + [c] + b == [c] + b;
      assert ([c] + b)[1..] == b;
    } else {
      SplitAtFirstSeparator(a[1..], b, c);
      assert (a + [c] + b)[1..] == a[1..] + [c] + b;
      assert [a[0]] + a[1..] == a;
    }
  }

  /** Splitting undoes joining, as long as no field holds the separator. */
  lemma {:induction false} SplitJoin(fields: seq<string>, c: char)
    requires |fields| >= 1
    requires forall k :: 0 <= k < |fields| ==> c !in fields[k]
    ensures Split(Join(fields, c), c) == fields
    decreases |fields|
  {
    if |fields| == 1 {
      SplitWithoutSeparator(fields[0], c);
    } else {
      SplitJoin(fields[1..], c);
      SplitAtFirstSeparator(fields[0], Join(fields[1..], c), c);
      assert [fields[0]] + fields[1..] == fields;
    }
  }

  /** Joining undoes splitting: no character of the input is lost. */
  lemma {:induction false} JoinSplit(s: string, c: char)
    ensures Join(Split(s, c), c) == s
    decreases |s|
  {
    if s != [] {
      JoinSplit(s[1..], c);
      var rest := Split(s[1..], c);
      if s[0] == c {
        assert ([[]] + rest)[1..] == rest;
        assert s == [c] + s[1..];
      } else if |rest| == 1 {
        assert s == [s[0]] + s[1..];
      } else {
        assert ([[s[0]] + rest[0]] + rest[1..])[1..] == rest[1..];
        assert s == [s[0]] + s[1..];
      }
    }
  }

  /**
   * The first piece of `s.split(c)` is the longest prefix of `s` without `c`:
   * it is a prefix, holds no `c`, and is either all of `s` or followed by `c`.
   */
  lemma {:induction false} FirstPiece(s: string, c: char)
    ensures var p := Split(s, c)[0];
      && p <= s && c !in p
      && (|p| < |s| ==> s[|p|] == c)
    decreases |s|
  {
    if s != [] {
      FirstPiece(s[1..], c);
    }
  }

  /** The first piece of a prefix that reaches past the first `c` is unchanged. */
  lemma FirstPieceOfPrefix(s: string, i: nat, c: char)
    requires i <= |s|
    requires |Split(s, c)[0]| < i || i == |s| || s[i] == c
    ensures Split(s[..i], c)[0] == Split(s, c)[0]
  {
    var p := Split(s, c)[0];
    FirstPiece(s, c);
    FirstPiece(s[..i], c);
    if |p| < i {
      // s[..i] = p + [c] + rest
      assert s[..i] == p + [c] + s[|p| + 1..i];
      SplitAtFirstSeparator(p, s[|p| + 1..i], c);
    } else if i == |s| {
      assert s[..i] == s;
    } else {
      // p holds no c and s[i] == c, so p is exactly s[..i]
      assert |p| == i;
      assert s[..i] == p;
      SplitWithoutSeparator(p, c);
    }
  }

  /** One step of `Split`: the effect of a first character on the pieces of the rest. */
  lemma SplitCons(x: char, t: string, c: char)
    ensures Split([x] + t, c) ==
      if x == c then [[]] + Split(t, c) else [[x] + Split(t, c)[0]] + Split(t, c)[1..]
  {
  }

  /** `s.split(c)` yields one piece more than `s` holds separators. */
  lemma {:induction false} PieceCount(s: string, c: char)
    ensures |Split(s, c)| == multiset(s)[c] + 1
    decreases |s|
  {
    if s != [] {
      PieceCount(s[1..], c);
      assert s == [s[0]] + s[1..];
    }
  }

  /** `pieces` with `b` appended to its last piece. */
  function ExtendLast(pieces: seq<string>, b: string): (r: seq<string>)
    requires pieces != []
    ensures |r| == |pieces| && r[|r| - 1] == pieces[|pieces| - 1] + b
    ensures forall k :: 0 <= k < |r| - 1 ==> r[k] == pieces[k]
  {
    pieces[..|pieces| - 1] + [pieces[|pieces| - 1] + b]
  }

  /** Extending the last piece leaves a new first piece in front. */
  lemma ExtendLastCons(h: string, pieces: seq<string>, b: string)
    requires pieces != []
    ensures ExtendLast([h] + pieces, b) == [h] + ExtendLast(pieces, b)
  {
  }

  /** Extending the last piece commutes with growing the first one. */
  lemma ExtendLastHead(x: string, pieces: seq<string>, b: string)
    requires pieces != []
    ensures var e := ExtendLast(pieces, b);
      ExtendLast([x + pieces[0]] + pieces[1..], b) == [x + e[0]] + e[1..]
  {
    var e := ExtendLast(pieces, b);
    if |pieces| == 1 {
      assert x + pieces[0] + b == x + e[0];
    }
  }

  /** Appending separator-free text extends the last piece only. */
  lemma {:induction false} SplitAppendWithoutSeparator(a: string, b: string, c: char)
    requires c !in b
    ensures var pa := Split(a, c);
      Split(a + b, c) == pa[..|pa| - 1] + [pa[|pa| - 1] + b]
    decreases |a|
  {
    if a == [] {
      assert a + b == b;
      SplitWithoutSeparator(b, c);
    } else {
      var x, t := a[0], a[1..];
      assert a == [x] + t;
      assert a + b == [x] + (t + b);
      SplitAppendWithoutSeparator(t, b, c);
      SplitCons(x, t, c);
      SplitCons(x, t + b, c);
      var r := Split(t, c);
      assert Split(t + b, c) == ExtendLast(r, b);
      if x == c {
        ExtendLastCons([], r, b);
      } else {
        ExtendLastHead([x], r, b);
      }
      assert Split(a + b, c) == ExtendLast(Split(a, c), b);
    }
  }

  /** A string that does not end with the separator has a non-empty last piece. */
  lemma {:induction false} LastPieceNonEmpty(s: string, c: char)
    requires s != [] && s[|s| - 1] != c
    ensures var ps := Split(s, c); ps[|ps| - 1] != []
    decreases |s|
  {
    if |s| > 1 {
      LastPieceNonEmpty(s[1..], c);
    }
  }

  /** The character of a decimal digit. */
  function DigitChar(d: nat): (ch: char)
    requires d < 10
    ensures '0' <= ch <= '9'
  {
    ('0' as int + d) as char
  }

  /** `format!("{n}")` for an unsigned integer: its decimal digits. */
  function NatToString(n: nat): (s: string)
    ensures s != [] && AllDigits(s)
    decreases n
  {
    if n < 10 then [DigitChar(n)] else NatToString(n / 10) + [DigitChar(n % 10)]
  }

  /** `iterator.next()` on a sequence of pieces. */
  function First<X>(xs: seq<X>): (r: Option<X>)
    ensures r.Some? <==> |xs| > 0
    ensures r.Some? ==> r.value == xs[0]
  {
    if |xs| == 0 then None else Some(xs[0])
  }
}
