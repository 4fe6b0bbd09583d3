/**
 * Python's `str.replace(token, repl)` with no count: every occurrence of
 * `token` is replaced, scanning from left to right, and an occurrence that
 * overlaps one already replaced is not considered.
 */
module Replace {
  import opened PyString

  /**
   * `s.replace(token, repl)`. A non-empty token is searched for position by
   * position; after a match the scan resumes right after it. For an empty
   * token Python puts `repl` before every character and once at the end.
   */
  function ReplaceAll(s: string, token: string, repl: string): string
    decreases |s|
  {
    if token == [] then InsertAround(s, repl)
    else if |s| < |token| then s
    else if s[..|token|] == token then repl + ReplaceAll(s[|token|..], token, repl)
    else [s[0]] + ReplaceAll(s[1..], token, repl)
  }

  /** What `s.replace("", repl)` yields: `repl` before each character of `s` and after the last. */
  function InsertAround(s: string, repl: string): (r: string)
    ensures |r| == |s| + (|s| + 1) * |repl|
  {
    if s == [] then repl else repl + [s[0]] + InsertAround(s[1..], repl)
  }

  /**
   * `s.find(t)`: the index of the first occurrence of `t` in `s`, or -1 when
   * there is none (the "first" and the "none" are FindIsFirst).
   */
  function Find(s: string, t: string): (r: int)
    ensures -1 <= r
    ensures 0 <= r ==> OccursAt(s, t, r)
    decreases |s|
  {
    if |s| < |t| then -1
    else if s[..|t|] == t then 0
    else
      var rest := Find(s[1..], t);
      if rest == -1 then -1
      else
        assert s[rest + 1..rest + 1 + |t|] == s[1..][rest..rest + |t|];
        rest + 1
  }

  /** No occurrence starts before the index Find returns, and it returns -1 exactly when `t` does not occur. */
  lemma {:induction false} FindIsFirst(s: string, t: string)
    ensures forall j :: 0 <= j < Find(s, t) ==> !OccursAt(s, t, j)
    ensures Find(s, t) == -1 <==> !Contains(s, t)
    decreases |s|
  {
    if |s| < |t| {
      forall j | 0 <= j <= |s| ensures !OccursAt(s, t, j) {
      }
    } else if s[..|t|] == t {
      assert OccursAt(s, t, 0);
    } else {
      var rest := Find(s[1..], t);
      FindIsFirst(s[1..], t);
      ShiftOccurrences(s, t);
      assert !OccursAt(s, t, 0);
      if rest == -1 {
        forall j | 0 <= j <= |s| ensures !OccursAt(s, t, j) {
          if j > 0 {
            assert !OccursAt(s[1..], t, j - 1);
          }
        }
      } else {
        forall j | 0 <= j < rest + 1 ensures !OccursAt(s, t, j) {
          if j > 0 {
            assert !OccursAt(s[1..], t, j - 1);
          }
        }
        assert OccursAt(s, t, rest + 1);
      }
    }
  }

  /** An occurrence in `s[1..]` at `j` is an occurrence in `s` at `j + 1`, and conversely. */
  lemma ShiftOccurrences(s: string, t: string)
    requires s != []
    ensures forall j :: 0 <= j ==> (OccursAt(s[1..], t, j) <==> OccursAt(s, t, j + 1))
    ensures forall j :: 1 <= j ==> (OccursAt(s, t, j) <==> OccursAt(s[1..], t, j - 1))
  {
    forall j | 0 <= j
      ensures OccursAt(s[1..], t, j) <==> OccursAt(s, t, j + 1)
    {
      if j + 1 + |t| <= |s| {
        assert s[1..][j..j + |t|] == s[j + 1..j + 1 + |t|];
      }
    }
    forall j | 1 <= j
      ensures OccursAt(s, t, j) <==> OccursAt(s[1..], t, j - 1)
    {
      assert OccursAt(s[1..], t, j - 1) <==> OccursAt(s, t, j - 1 + 1);
    }
  }

  /**
   * `s.split(t)` for a non-empty separator: the pieces between the
   * occurrences of `t` found from left to right (a reference definition
   * built on `Find`, independent of the scan in ReplaceAll).
   */
  function Split(s: string, t: string): (parts: seq<string>)
    requires t != []
    ensures |parts| >= 1
    decreases |s|
  {
    var i := Find(s, t);
    if i < 0 then [s] else [s[..i]] + Split(s[i + |t|..], t)
  }

  /** Joining the pieces of a split with the separator gives back the string. */
  lemma {:induction false} SplitJoinRoundTrip(s: string, t: string)
    requires t != []
    ensures Join(Split(s, t), t) == s
    decreases |s|
  {
    var i := Find(s, t);
    if i < 0 {
      assert Split(s, t) == [s];
      assert Join([s], t) == s;
    } else {
      var head, rest := s[..i], s[i + |t|..];
      calc {
        Join(Split(s, t), t);
        == { SplitAtFirst(s, t, i); }
        Join([head] + Split(rest, t), t);
        == { JoinCons(head, Split(rest, t), t); }
        head + t + Join(Split(rest, t), t);
        == { SplitJoinRoundTrip(rest, t); }
        head + t + rest;
        == { Reassemble(s, t, i); }
        s;
      }
    }
  }

  /** Splitting at the first occurrence of the separator. */
  lemma SplitAtFirst(s: string, t: string, i: nat)
    requires t != [] && Find(s, t) == i
    ensures Split(s, t) == [s[..i]] + Split(s[i + |t|..], t)
  {
    SplitUnfold(s, t);
    assert !(Find(s, t) < 0);
  }

  /** Split's definition, unfolded once. */
  lemma SplitUnfold(s: string, t: string)
    requires t != []
    ensures Split(s, t) == if Find(s, t) < 0 then [s] else [s[..Find(s, t)]] + Split(s[Find(s, t) + |t|..], t)
  {
  }

  /** A string is the part before an occurrence, the occurrence, and the part after it. */
  lemma Reassemble(s: string, t: string, i: nat)
    requires OccursAt(s, t, i)
    ensures s == s[..i] + t + s[i + |t|..]
  {
    assert s == s[..i] + s[i..i + |t|] + s[i + |t|..];
  }

  /** Joining a leading part onto a non-empty list puts one separator after it. */
  lemma JoinCons(head: string, tail: seq<string>, sep: string)
    requires tail != []
    ensures Join([head] + tail, sep) == head + sep + Join(tail, sep)
  {
    assert ([head] + tail)[1..] == tail;
  }

  /** No piece of a split contains the separator. */
  lemma {:induction false} SplitPiecesAvoidSeparator(s: string, t: string)
    requires t != []
    ensures forall k :: 0 <= k < |Split(s, t)| ==> !Contains(Split(s, t)[k], t)
    decreases |s|
  {
    var i := Find(s, t);
    FindIsFirst(s, t);
    if i >= 0 {
      var rest := s[i + |t|..];
      SplitPiecesAvoidSeparator(rest, t);
      var head := s[..i];
      assert !Contains(head, t) by {
        forall j | 0 <= j <= |head| && OccursAt(head, t, j) ensures false {
          assert head[j..j + |t|] == s[j..j + |t|];
          assert OccursAt(s, t, j);
        }
      }
      SplitAtFirst(s, t, i);
    }
  }

  /** Replacing skips over a stretch in which no occurrence starts. */
  lemma {:induction false} ReplaceAllSkips(s: string, t: string, repl: string, i: nat)
    requires t != [] && i <= |s|
    requires forall j :: 0 <= j < i ==> !OccursAt(s, t, j)
    ensures ReplaceAll(s, t, repl) == s[..i] + ReplaceAll(s[i..], t, repl)
    decreases i
  {
    if i == 0 {
      assert s[i..] == s;
    } else if |s| < |t| {
      ReplaceAllSkipsShort(s, t, repl, i);
    } else {
      var rest := ReplaceAll(s[i..], t, repl);
      ReplaceAllSkipsStep(s, t, repl, i);
      calc {
        ReplaceAll(s, t, repl);
        [s[0]] + ReplaceAll(s[1..], t, repl);
        == { ReplaceAllSkips(s[1..], t, repl, i - 1); SliceShift(s, i); }
        [s[0]] + (s[1..i] + rest);
        == { ConcatAssoc([s[0]], s[1..i], rest); SliceShift(s, i); }
        s[..i] + rest;
      }
    }
  }

  /** Concatenation is associative. */
  lemma ConcatAssoc(a: string, b: string, c: string)
    ensures a + (b + c) == (a + b) + c
  {
  }

  /** ReplaceAllSkips for a string shorter than the token, which is left as it is. */
  lemma ReplaceAllSkipsShort(s: string, t: string, repl: string, i: nat)
    requires t != [] && i <= |s| < |t|
    ensures ReplaceAll(s, t, repl) == s[..i] + ReplaceAll(s[i..], t, repl)
  {
    assert s[..i] + s[i..] == s;
    ReplaceAllShort(s[i..], t, repl);
  }

  /** The slices of `s[1..]` in terms of the slices of `s`. */
  lemma SliceShift(s: string, i: nat)
    requires 0 < i <= |s|
    ensures s[1..][..i - 1] == s[1..i] && s[1..][i - 1..] == s[i..] && [s[0]] + s[1..i] == s[..i]
  {
  }

  /** One step of ReplaceAllSkips: the first character is kept and no occurrence starts early in the rest. */
  lemma ReplaceAllSkipsStep(s: string, t: string, repl: string, i: nat)
    requires t != [] && 0 < i <= |s| && |t| <= |s|
    requires forall j :: 0 <= j < i ==> !OccursAt(s, t, j)
    ensures ReplaceAll(s, t, repl) == [s[0]] + ReplaceAll(s[1..], t, repl)
    ensures forall j :: 0 <= j < i - 1 ==> !OccursAt(s[1..], t, j)
  {
    assert !OccursAt(s, t, 0);
    forall j | 0 <= j < i - 1 ensures !OccursAt(s[1..], t, j) {
      assert !OccursAt(s, t, j + 1);
      if j + |t| <= |s| - 1 {
        assert s[1..][j..j + |t|] == s[j + 1..j + 1 + |t|];
      }
    }
  }

  /** A string shorter than the token is left as it is. */
  lemma ReplaceAllShort(s: string, t: string, repl: string)
    requires t != [] && |s| < |t|
    ensures ReplaceAll(s, t, repl) == s
  {
  }

  /** A replace whose token does not occur leaves the string unchanged. */
  lemma ReplaceAllAbsent(s: string, t: string, repl: string)
    requires !Contains(s, t)
    ensures ReplaceAll(s, t, repl) == s
  {
    assert t != [] by {
      if t == [] { assert OccursAt(s, t, 0); }
    }
    ReplaceAllSkips(s, t, repl, |s|);
    assert s[..|s|] == s;
    assert s[|s|..] == [];
  }

  /**
   * The scan in ReplaceAll agrees with the split-then-join reading of
   * `str.replace`: `s.replace(t, r) == r.join(s.split(t))`.
   */
  lemma {:induction false} ReplaceAllIsSplitJoin(s: string, t: string, repl: string)
    requires t != []
    ensures ReplaceAll(s, t, repl) == Join(Split(s, t), repl)
    decreases |s|
  {
    var i := Find(s, t);
    if i < 0 {
      FindIsFirst(s, t);
      ReplaceAllAbsent(s, t, repl);
      SplitUnfold(s, t);
      assert Join([s], repl) == s;
    } else {
      ReplaceAllIsSplitJoin(s[i + |t|..], t, repl);
      ReplaceAllIsSplitJoinStep(s, t, repl, i);
    }
  }

  /** The step of ReplaceAllIsSplitJoin at the first occurrence, given the claim for the rest. */
  lemma ReplaceAllIsSplitJoinStep(s: string, t: string, repl: string, i: nat)
    requires t != [] && Find(s, t) == i
    requires ReplaceAll(s[i + |t|..], t, repl) == Join(Split(s[i + |t|..], t), repl)
    ensures ReplaceAll(s, t, repl) == Join(Split(s, t), repl)
  {
    var rest := s[i + |t|..];
    SplitAtFirst(s, t, i);
    FindIsFirst(s, t);
    calc {
      ReplaceAll(s, t, repl);
      == { ReplaceAllSkips(s, t, repl, i); }
      s[..i] + ReplaceAll(s[i..], t, repl);
      == { ReplaceAllAtMatch(s, t, repl, i); }
      s[..i] + repl + ReplaceAll(rest, t, repl);
      s[..i] + repl + Join(Split(rest, t), repl);
      == { JoinCons(s[..i], Split(rest, t), repl); }
      Join([s[..i]] + Split(rest, t), repl);
    }
  }

  /** At an occurrence of the token the scan emits the replacement and resumes after it. */
  lemma ReplaceAllAtMatch(s: string, t: string, repl: string, i: nat)
    requires t != [] && OccursAt(s, t, i)
    ensures ReplaceAll(s[i..], t, repl) == repl + ReplaceAll(s[i + |t|..], t, repl)
  {
    assert s[i..][..|t|] == s[i..i + |t|];
    assert s[i..][|t|..] == s[i + |t|..];
  }

  /**
   * Replacing a token by itself changes nothing. The generator never does
   * this; it is a check that the scan and the split/join reading agree with
   * SplitJoinRoundTrip.
   */
  lemma ReplaceAllWithItself(s: string, t: string)
    requires t != []
    ensures ReplaceAll(s, t, t) == s
  {
    ReplaceAllIsSplitJoin(s, t, t);
    SplitJoinRoundTrip(s, t);
  }

  /**
   * A string with exactly one occurrence of the token, at `i`, has just that
   * occurrence replaced.
   */
  lemma ReplaceAllSingle(s: string, t: string, repl: string, i: nat)
    requires t != [] && OccursAt(s, t, i)
    requires forall j :: 0 <= j < i ==> !OccursAt(s, t, j)
    requires !Contains(s[i + |t|..], t)
    ensures ReplaceAll(s, t, repl) == s[..i] + repl + s[i + |t|..]
  {
    ReplaceAllSkips(s, t, repl, i);
    assert s[i..][..|t|] == s[i..i + |t|];
    assert s[i..][|t|..] == s[i + |t|..];
    ReplaceAllAbsent(s[i + |t|..], t, repl);
  }
}
