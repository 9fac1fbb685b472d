/**
  The two functions of Go's `strings` package that the query encoder relies on:
  `strings.Join`, which the encoder calls, and `strings.Split` with a
  one-element separator, which undoes it and serves as its inverse here.
  Both are generic in the element type, so they apply to byte strings.
 */
module Strings {

  /** Total length of all the pieces. */
  function TotalLength<T>(ss: seq<seq<T>>): nat
  {
    if ss == [] then 0 else |ss[0]| + TotalLength(ss[1..])
  }

  /**
    `strings.Join(ss, sep)`: the pieces in order with `sep` between each two
    neighbours; no separator before the first piece or after the last.
   */
  function Join<T>(ss: seq<seq<T>>, sep: seq<T>): (r: seq<T>)
    ensures |ss| == 0 ==> r == []
    ensures |ss| > 0 ==> ss[0] <= r
  {
    if |ss| == 0 then []
    else if |ss| == 1 then ss[0]
    else ss[0] + sep + Join(ss[1..], sep)
  }

  /**
    `strings.Split(s, [c])`: the maximal runs of `s` free of `c`, in order.
    As in Go, the result always has at least one piece, and it has one more
    piece than `s` has occurrences of `c`.
   */
  function Split<T(==)>(s: seq<T>, c: T): (r: seq<seq<T>>)
    ensures |r| >= 1
    ensures forall i :: 0 <= i < |r| ==> c !in r[i]
  {
    if s == [] then [[]]
    else
      var rest := Split(s[1..], c);
      if s[0] == c then [[]] + rest
      else [[s[0]] + rest[0]] + rest[1..]
  }

  /** There is one more piece than `s` has occurrences of `c`. */
  lemma {:induction false} SplitCount<T>(s: seq<T>, c: T)
    ensures |Split(s, c)| == multiset(s)[c] + 1
  {
    if s != [] {
      SplitCount(s[1..], c);
      assert s == [s[0]] + s[1..];
    }
  }

  /**
    Join inserts exactly one separator between neighbouring pieces and none
    elsewhere: k pieces give k - 1 separators.
   */
  lemma {:induction false} JoinLength<T>(ss: seq<seq<T>>, sep: seq<T>)
    requires |ss| > 0
    ensures |Join(ss, sep)| == TotalLength(ss) + (|ss| - 1) * |sep|
  {
    if |ss| > 1 {
      JoinLength(ss[1..], sep);
    }
  }

  /** Appending a piece appends it to the join, after a separator unless it is the first. */
  lemma {:induction false} JoinSnoc<T>(ss: seq<seq<T>>, x: seq<T>, sep: seq<T>)
    ensures Join(ss + [x], sep) == if |ss| == 0 then x else Join(ss, sep) + sep + x
  {
    if |ss| == 1 {
      assert ss + [x] == [ss[0], x];
    } else if |ss| > 1 {
      JoinSnoc(ss[1..], x, sep);
      assert (ss + [x])[1..] == ss[1..] + [x];
    }
  }

  /** Joining at least one non-empty piece gives a non-empty string. */
  lemma JoinNonEmpty<T>(ss: seq<seq<T>>, sep: seq<T>, i: nat)
    requires i < |ss| && ss[i] != []
    ensures Join(ss, sep) != []
  {
    JoinLength(ss, sep);
    TotalLengthAtLeast(ss, i);
  }

  lemma {:induction false} TotalLengthAtLeast<T>(ss: seq<seq<T>>, i: nat)
    requires i < |ss|
    ensures TotalLength(ss) >= |ss[i]|
  {
    if i > 0 {
      TotalLengthAtLeast(ss[1..], i - 1);
    }
  }

  /** A string free of `c` splits into itself alone. */
  lemma {:induction false} SplitFree<T>(s: seq<T>, c: T)
    requires c !in s
    ensures Split(s, c) == [s]
  {
    if s != [] {
      SplitFree(s[1..], c);
      assert [s[0]] + s[1..] == s;
    }
  }

  /** A `c` after a `c`-free prefix ends the first piece there. */
  lemma {:induction false} SplitAt<T>(a: seq<T>, c: T, b: seq<T>)
    requires c !in a
    ensures Split(a + [c] + b, c) == [a] + Split(b, c)
  {
    if a == [] {
      assert a + [c] + b == [c] + b;
      assert ([c] + b)[1..] == b;
    } else {
      var s := a + [c] + b;
      assert s[0] == a[0] && s[1..] == a[1..] + [c] + b;
      SplitAt(a[1..], c, b);
      assert [a[0]] + a[1..] == a;
    }
  }

  /**
    Splitting undoes joining with a one-element separator, provided no piece
    contains the separator.
   */
  lemma {:induction false} SplitJoin<T>(ss: seq<seq<T>>, c: T)
    requires |ss| > 0
    requires forall i :: 0 <= i < |ss| ==> c !in ss[i]
    ensures Split(Join(ss, [c]), c) == ss
  {
    if |ss| == 1 {
      SplitFree(ss[0], c);
    } else {
      SplitJoin(ss[1..], c);
      SplitAt(ss[0], c, Join(ss[1..], [c]));
      assert [ss[0]] + ss[1..] == ss;
    }
  }

  /** Joining undoes splitting: no byte of the input is lost or added. */
  lemma {:induction false} JoinSplit<T>(s: seq<T>, c: T)
    ensures Join(Split(s, c), [c]) == s
  {
    if s != [] {
      JoinSplit(s[1..], c);
      var rest := Split(s[1..], c);
      if s[0] == c {
        assert ([[]] + rest)[1..] == rest;
        assert [c] + s[1..] == s;
      } else {
        var r := [[s[0]] + rest[0]] + rest[1..];
        assert r[1..] == rest[1..];
        if |rest| == 1 {
          assert rest == [rest[0]];
          assert [s[0]] + s[1..] == s;
        } else {
          assert rest == [rest[0]] + rest[1..];
          assert Join(rest, [c]) == rest[0] + [c] + Join(rest[1..], [c]);
          assert [s[0]] + s[1..] == s;
        }
      }
    }
  }
}
