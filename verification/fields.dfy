/** The field list of a sentence: the bytes between the address comma and
    the '*' cut at every comma. */
module Fields {
  import opened Common

  /** Number of occurrences of `b` in `s`. */
  function Count(s: seq<byte>, b: byte): nat
  {
    if s == [] then 0 else (if s[0] == b then 1 else 0) + Count(s[1..], b)
  }

  /** The comma-separated parts of `s`; there is always one more part than
      there are commas, and empty parts are kept. */
  function Split(s: seq<byte>): (parts: seq<seq<byte>>)
    ensures |parts| >= 1
  {
    if s == [] then [[]]
    else
      var rest := Split(s[1..]);
      if s[0] == COMMA then [[]] + rest else [[s[0]] + rest[0]] + rest[1..]
  }

  /** The parts written one after the other with a comma between each two. */
  function Join(parts: seq<seq<byte>>): seq<byte>
    requires |parts| >= 1
  {
    if |parts| == 1 then parts[0] else parts[0] + [COMMA] + Join(parts[1..])
  }

  function AllButLast(parts: seq<seq<byte>>): seq<seq<byte>>
    requires |parts| >= 1
  {
    parts[..|parts| - 1]
  }

  /** There is one more part than there are commas. */
  lemma {:induction false} SplitCount(s: seq<byte>)
    ensures |Split(s)| == Count(s, COMMA) + 1
  {
    if s != [] {
      SplitCount(s[1..]);
    }
  }

  /** Joining the parts gives back the input. */
  lemma {:induction false} JoinSplit(s: seq<byte>)
    ensures Join(Split(s)) == s
  {
    if s != [] {
      JoinSplit(s[1..]);
      var rest := Split(s[1..]);
      if s[0] != COMMA && |rest| > 1 {
        assert Join(rest) == rest[0] + [COMMA] + Join(rest[1..]);
        assert ([[s[0]] + rest[0]] + rest[1..])[1..] == rest[1..];
      }
      if s[0] == COMMA {
        assert ([[]] + rest)[1..] == rest;
      }
    }
  }

  /** No part holds a comma, and every byte of a part is a byte of the input. */
  lemma {:induction false} SplitPart(s: seq<byte>, i: nat)
    requires i < |Split(s)|
    ensures COMMA !in Split(s)[i]
    ensures forall x :: x in Split(s)[i] ==> x in s
  {
    if s != [] {
      var rest := Split(s[1..]);
      assert forall y :: y in s[1..] ==> y in s;
      if s[0] == COMMA {
        assert Split(s) == [[]] + rest;
        if i > 0 {
          assert Split(s)[i] == rest[i - 1];
          SplitPart(s[1..], i - 1);
        }
      } else {
        assert Split(s) == [[s[0]] + rest[0]] + rest[1..];
        if i == 0 {
          SplitPart(s[1..], 0);
          assert Split(s)[0] == [s[0]] + rest[0];
        } else {
          assert Split(s)[i] == rest[i];
          SplitPart(s[1..], i);
        }
      }
    }
  }

  /** No part holds a comma, nor a byte that the input does not hold. */
  lemma SplitParts(s: seq<byte>, b: byte)
    requires b !in s
    ensures forall i :: 0 <= i < |Split(s)| ==> COMMA !in Split(s)[i] && b !in Split(s)[i]
  {
    forall i | 0 <= i < |Split(s)|
      ensures COMMA !in Split(s)[i] && b !in Split(s)[i]
    {
      SplitPart(s, i);
    }
  }

  /** A byte other than the comma that occurs in no part does not occur in
      the joined text. */
  lemma {:induction false} JoinAvoids(parts: seq<seq<byte>>, b: byte)
    requires |parts| >= 1 && b != COMMA
    requires forall i :: 0 <= i < |parts| ==> b !in parts[i]
    ensures b !in Join(parts)
  {
    if |parts| > 1 {
      JoinAvoids(parts[1..], b);
    }
  }

  /** Splitting a comma-free first part off the front. */
  lemma {:induction false} SplitHead(p: seq<byte>, t: seq<byte>)
    requires COMMA !in p
    ensures Split(p + t) == [p + Split(t)[0]] + Split(t)[1..]
  {
    if p == [] {
      var S := Split(t);
      assert p + t == t;
      assert p + S[0] == S[0];
      assert [S[0]] + S[1..] == S;
    } else {
      var S := Split(t);
      assert p[0] in p;
      assert (p + t)[0] == p[0];
      assert (p + t)[1..] == p[1..] + t;
      assert COMMA !in p[1..] by {
        assert forall y :: y in p[1..] ==> y in p;
      }
      SplitHead(p[1..], t);
      var R := Split(p[1..] + t);
      assert R == [p[1..] + S[0]] + S[1..];
      assert Split(p + t) == [[p[0]] + R[0]] + R[1..];
      assert R[0] == p[1..] + S[0];
      assert R[1..] == S[1..];
      assert [p[0]] + (p[1..] + S[0]) == p + S[0];
    }
  }

  /** Splitting what was joined gives back the parts, when no part holds a
      comma: `Split` and `Join` are inverse to each other. */
  lemma {:induction false} SplitJoin(parts: seq<seq<byte>>)
    requires |parts| >= 1
    requires forall i :: 0 <= i < |parts| ==> COMMA !in parts[i]
    ensures Split(Join(parts)) == parts
  {
    if |parts| == 1 {
      SplitHead(parts[0], []);
      assert parts[0] + [] == parts[0];
    } else {
      assert forall i :: 0 <= i < |parts[1..]| ==> parts[1..][i] == parts[i + 1];
      SplitJoin(parts[1..]);
      var t := Join(parts[1..]);
      assert Join(parts) == parts[0] + ([COMMA] + t);
      SplitHead(parts[0], [COMMA] + t);
      assert ([COMMA] + t)[0] == COMMA;
      assert ([COMMA] + t)[1..] == t;
      var S := Split([COMMA] + t);
      assert S == [[]] + parts[1..];
      assert S[0] == [] && S[1..] == parts[1..];
      assert parts[0] + S[0] == parts[0];
      assert parts == [parts[0]] + parts[1..];
    }
  }

  /** What `SplitSnoc` says about `s + [c]`, given the parts `p` of `s`. */
  function Extend(p: seq<seq<byte>>, c: byte): (r: seq<seq<byte>>)
    requires |p| >= 1
    ensures |r| >= 1
  {
    if c == COMMA then p + [[]] else AllButLast(p) + [p[|p| - 1] + [c]]
  }

  lemma SplitSingle(c: byte)
    ensures Split([c]) == Extend([[]], c)
  {
    assert [c][1..] == [];
    assert Split([c][1..]) == [[]];
    if c != COMMA {
      assert Split([c]) == [[c] + []] + [];
      assert AllButLast([[]]) == [];
      assert [c] + [] == [] + [c] == [c];
    }
  }

  /** Extending commutes with putting a non-comma byte in front of the first
      part. */
  lemma ExtendCons(b: byte, q: seq<seq<byte>>, c: byte)
    requires |q| >= 1
    ensures var Q := Extend(q, c);
      [[b] + Q[0]] + Q[1..] == Extend([[b] + q[0]] + q[1..], c)
  {
    var Q := Extend(q, c);
    var p := [[b] + q[0]] + q[1..];
    if c == COMMA {
      assert Q[0] == q[0] && Q[1..] == q[1..] + [[]];
    } else if |q| == 1 {
      assert Q == [q[0] + [c]];
      assert Q[1..] == [];
      assert |p| == 1 && AllButLast(p) == [];
      assert [b] + (q[0] + [c]) == ([b] + q[0]) + [c];
    } else {
      assert Q[0] == q[0];
      assert Q[1..] == q[1..|q| - 1] + [q[|q| - 1] + [c]];
      assert AllButLast(p) == [[b] + q[0]] + q[1..|q| - 1];
    }
  }

  /** Reading one more byte, as the scan loop does: a comma opens a new empty
      part, any other byte extends the last part. */
  lemma {:induction false} SplitSnoc(s: seq<byte>, c: byte)
    ensures Split(s + [c]) == Extend(Split(s), c)
  {
    if s == [] {
      assert s + [c] == [c];
      SplitSingle(c);
    } else {
      assert (s + [c])[0] == s[0];
      assert (s + [c])[1..] == s[1..] + [c];
      SplitSnoc(s[1..], c);
      var q := Split(s[1..]);
      if s[0] == COMMA {
        if c != COMMA {
          assert AllButLast([[]] + q) == [[]] + AllButLast(q);
        }
      } else {
        ExtendCons(s[0], q, c);
      }
    }
  }

  /** Extending never changes a part already closed by a comma. */
  lemma ExtendKeeps(p: seq<seq<byte>>, c: byte)
    requires |p| >= 1
    ensures AllButLast(p) <= AllButLast(Extend(p, c))
  {
    if c == COMMA {
      assert AllButLast(p + [[]]) == p;
    } else {
      assert AllButLast(Extend(p, c)) == AllButLast(p);
    }
  }

  /** The parts already closed by a comma stay the same whatever follows. */
  lemma {:induction false} SplitPrefix(x: seq<byte>, y: seq<byte>)
    ensures AllButLast(Split(x)) <= AllButLast(Split(x + y))
    decreases |y|
  {
    if y != [] {
      var y' := y[..|y| - 1];
      var c := y[|y| - 1];
      assert x + y == (x + y') + [c];
      SplitPrefix(x, y');
      SplitSnoc(x + y', c);
      ExtendKeeps(Split(x + y'), c);
      var A, B, C := AllButLast(Split(x)), AllButLast(Split(x + y')), AllButLast(Split(x + y));
      assert A <= B && B <= C;
      assert |A| <= |B| && forall i :: 0 <= i < |A| ==> A[i] == B[i] && B[i] == C[i];
    } else {
      assert x + y == x;
    }
  }
}
