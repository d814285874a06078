/**
  JavaScript's `String.prototype.split` called with a one-character string
  separator, as the submit handler uses it (`secretKey.split(" ")`), on
  strings modelled as `seq<char>`.

  The behaviour kept here is that of the ECMAScript algorithm for a
  non-empty separator and no limit: the string is cut at every occurrence
  of the separator, nothing is trimmed, adjacent separators give an empty
  piece between them, and the empty string gives one empty piece.
  `Join` is the inverse operation (`Array.prototype.join` with the same
  separator) and serves as the reference the lemmas compare against.
*/
module StringSplit {

  /** Number of occurrences of `c` in `s`. */
  function Count(s: seq<char>, c: char): (n: nat)
    ensures n <= |s|
    ensures n == 0 <==> c !in s
  {
    if s == [] then 0
    else (if s[0] == c then 1 else 0) + Count(s[1..], c)
  }

  /** The pieces of `s` between occurrences of `sep`, left to right. */
  function Split(s: seq<char>, sep: char): (pieces: seq<seq<char>>)
    ensures |pieces| >= 1
  {
    if s == [] then [[]]
    else if s[0] == sep then [[]] + Split(s[1..], sep)
    else
      var rest := Split(s[1..], sep);
      [[s[0]] + rest[0]] + rest[1..]
  }

  /** The pieces glued back together with `sep` between neighbours. */
  function Join(pieces: seq<seq<char>>, sep: char): (s: seq<char>)
    requires |pieces| >= 1
  {
    if |pieces| == 1 then pieces[0]
    else pieces[0] + [sep] + Join(pieces[1..], sep)
  }

  /** No piece contains the separator. */
  predicate SeparatorFree(pieces: seq<seq<char>>, sep: char)
  {
    forall i :: 0 <= i < |pieces| ==> sep !in pieces[i]
  }

  lemma {:induction false} CountAppend(a: seq<char>, b: seq<char>, c: char)
    ensures Count(a + b, c) == Count(a, c) + Count(b, c)
  {
    if a == [] {
      assert a + b == b;
    } else {
      assert (a + b)[1..] == a[1..] + b;
      CountAppend(a[1..], b, c);
    }
  }

  /** Inserting one more `c` anywhere adds exactly one to the count. */
  lemma CountInsert(s: seq<char>, i: nat, c: char)
    requires i <= |s|
    ensures Count(s[..i] + [c] + s[i..], c) == Count(s, c) + 1
  {
    var before, after := s[..i], s[i..];
    assert s == before + after;
    CountAppend(before, after, c);
    assert [c][1..] == [];
    CountAppend(before, [c], c);
    CountAppend(before + [c], after, c);
  }

  /** There is one more piece than there are separators. */
  lemma {:induction false} SplitLength(s: seq<char>, sep: char)
    ensures |Split(s, sep)| == Count(s, sep) + 1
  {
    if s != [] {
      SplitLength(s[1..], sep);
    }
  }

  /** The separator never appears inside a piece. */
  lemma {:induction false} SplitSeparatorFree(s: seq<char>, sep: char)
    ensures SeparatorFree(Split(s, sep), sep)
  {
    if s != [] {
      SplitSeparatorFree(s[1..], sep);
      var rest := Split(s[1..], sep);
      if s[0] != sep {
        assert sep !in rest[0];
        assert sep !in [s[0]] + rest[0];
        var pieces := Split(s, sep);
        forall i | 0 <= i < |pieces| ensures sep !in pieces[i] {
          if i > 0 {
            assert pieces[i] == rest[i];
          }
        }
      }
    }
  }

  /** Joining the pieces gives back the original string. */
  lemma {:induction false} JoinSplit(s: seq<char>, sep: char)
    ensures Join(Split(s, sep), sep) == s
  {
    if s != [] {
      JoinSplit(s[1..], sep);
      var rest := Split(s[1..], sep);
      if s[0] == sep {
        assert Split(s, sep)[1..] == rest;
        assert s == [sep] + s[1..];
      } else {
        var pieces := Split(s, sep);
        assert pieces[1..] == rest[1..];
        if |rest| == 1 {
          assert s == [s[0]] + s[1..];
        } else {
          assert Join(rest, sep) == rest[0] + [sep] + Join(rest[1..], sep);
          assert s == [s[0]] + s[1..];
        }
      }
    }
  }

  /** A separator-free prefix is glued onto the first piece of what follows. */
  lemma {:induction false} SplitPrefix(w: seq<char>, t: seq<char>, sep: char)
    requires sep !in w
    ensures Split(w + t, sep) == [w + Split(t, sep)[0]] + Split(t, sep)[1..]
  {
    if w == [] {
      assert w + t == t;
      assert w + Split(t, sep)[0] == Split(t, sep)[0];
      assert [Split(t, sep)[0]] + Split(t, sep)[1..] == Split(t, sep);
    } else {
      assert (w + t)[1..] == w[1..] + t;
      assert (w + t)[0] == w[0];
      SplitPrefix(w[1..], t, sep);
      assert [w[0]] + (w[1..] + Split(t, sep)[0]) == w + Split(t, sep)[0];
    }
  }

  /** Splitting a join of separator-free pieces gives back the pieces. */
  lemma {:induction false} SplitJoin(pieces: seq<seq<char>>, sep: char)
    requires |pieces| >= 1
    requires SeparatorFree(pieces, sep)
    ensures Split(Join(pieces, sep), sep) == pieces
  {
    var w := pieces[0];
    assert sep !in w;
    if |pieces| == 1 {
      SplitPrefix(w, [], sep);
      assert w + [] == w;
    } else {
      var tail := pieces[1..];
      assert SeparatorFree(tail, sep) by {
        forall i | 0 <= i < |tail| ensures sep !in tail[i] {
          assert tail[i] == pieces[i + 1];
        }
      }
      SplitJoin(tail, sep);
      var t := [sep] + Join(tail, sep);
      assert pieces[0] + [sep] + Join(tail, sep) == w + t;
      SplitPrefix(w, t, sep);
      assert t[1..] == Join(tail, sep);
      assert Split(t, sep) == [[]] + tail;
      assert w + [] == w;
      assert pieces == [w] + tail;
    }
  }

  /** The number of separators in a join is one less than the number of pieces. */
  lemma {:induction false} JoinCount(pieces: seq<seq<char>>, sep: char)
    requires |pieces| >= 1
    requires SeparatorFree(pieces, sep)
    ensures Count(Join(pieces, sep), sep) == |pieces| - 1
  {
    SplitJoin(pieces, sep);
    SplitLength(Join(pieces, sep), sep);
  }
}
