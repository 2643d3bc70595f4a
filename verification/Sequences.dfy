/** Generic facts about sequences. */
module Sequences {
  import opened Wrappers

  lemma ConcatAssociates<T>(x: seq<T>, y: seq<T>, z: seq<T>)
    ensures x + (y + z) == (x + y) + z
  {
  }

  function Flatten<T>(ss: seq<seq<T>>): seq<T> {
    if ss == [] then [] else Flatten(ss[..|ss| - 1]) + ss[|ss| - 1]
  }

  lemma FlattenStep<T>(ss: seq<seq<T>>, i: nat)
    requires i < |ss|
    ensures Flatten(ss[..i + 1]) == Flatten(ss[..i]) + ss[i]
  {
    assert ss[..i + 1][..i] == ss[..i];
  }

  /** The first components of a list of pairs. */
  function Firsts<A, B>(pairs: seq<(A, B)>): (r: seq<A>)
    ensures |r| == |pairs|
  {
    seq(|pairs|, i requires 0 <= i < |pairs| => pairs[i].0)
  }

  function FirstSome<T>(os: seq<Option<T>>): Option<T> {
    if os == [] then None else if os[0].Some? then os[0] else FirstSome(os[1..])
  }

  lemma {:induction false} FirstSomeIs<T>(os: seq<Option<T>>, i: nat)
    requires i <= |os| && forall j | 0 <= j < i :: os[j].None?
    ensures FirstSome(os) == FirstSome(os[i..])
  {
    if i > 0 {
      FirstSomeIs(os[1..], i - 1);
      assert os[1..][i - 1..] == os[i..];
    } else {
      assert os[0..] == os;
    }
  }

  lemma {:induction false} NoneIsSome<T>(os: seq<Option<T>>)
    ensures FirstSome(os).None? <==> forall i | 0 <= i < |os| :: os[i].None?
  {
    if os != [] {
      NoneIsSome(os[1..]);
      assert forall i | 0 < i < |os| :: os[i] == os[1..][i - 1];
    }
  }

  /** The element before which all are `None`, if there is one. */
  lemma {:induction false} FirstSomeIsFirst<T>(os: seq<Option<T>>)
    ensures FirstSome(os).Some? ==>
              exists i | 0 <= i < |os| :: os[i] == FirstSome(os) && forall j | 0 <= j < i :: os[j].None?
  {
    if os != [] && os[0].None? && FirstSome(os).Some? {
      FirstSomeIsFirst(os[1..]);
      var i :| 0 <= i < |os[1..]| && os[1..][i] == FirstSome(os) && forall j | 0 <= j < i :: os[1..][j].None?;
      assert os[i + 1] == FirstSome(os) && forall j | 0 < j < i + 1 :: os[j] == os[1..][j - 1];
    }
  }

  /** `ps` with some of its elements left out, order kept. */
  ghost predicate Subsequence<T>(sub: seq<T>, ps: seq<T>) {
    sub == [] ||
    (ps != [] &&
      (Subsequence(sub, ps[..|ps| - 1]) ||
       (sub[|sub| - 1] == ps[|ps| - 1] && Subsequence(sub[..|sub| - 1], ps[..|ps| - 1]))))
  }

  lemma SubsequenceSkips<T>(sub: seq<T>, ps: seq<T>, x: T)
    requires Subsequence(sub, ps)
    ensures Subsequence(sub, ps + [x])
    ensures Subsequence(sub + [x], ps + [x])
  {
  }

  lemma {:induction false} SubsequenceOfSubsequence<T>(a: seq<T>, b: seq<T>, c: seq<T>)
    requires Subsequence(a, b) && Subsequence(b, c)
    ensures Subsequence(a, c)
    decreases |b| + |c|
  {
    if a != [] {
      var (b', c') := (b[..|b| - 1], c[..|c| - 1]);
      assert c == c' + [c[|c| - 1]];
      if Subsequence(b, c') {
        SubsequenceOfSubsequence(a, b, c');
      } else if Subsequence(a, b') {
        SubsequenceOfSubsequence(a, b', c');
      } else {
        SubsequenceOfSubsequence(a[..|a| - 1], b', c');
      }
    }
  }

  lemma {:induction false} SubsequenceElements<T>(sub: seq<T>, ps: seq<T>)
    requires Subsequence(sub, ps)
    ensures forall x | x in sub :: x in ps
  {
    if sub != [] {
      var ps' := ps[..|ps| - 1];
      if Subsequence(sub, ps') {
        SubsequenceElements(sub, ps');
      } else {
        SubsequenceElements(sub[..|sub| - 1], ps');
        assert sub == sub[..|sub| - 1] + [sub[|sub| - 1]];
      }
    }
  }

  ghost predicate NoRepeats<T>(s: seq<T>) {
    forall i, j | 0 <= i < j < |s| :: s[i] != s[j]
  }

  lemma {:induction false} SubsequenceNoRepeats<T>(sub: seq<T>, ps: seq<T>)
    requires Subsequence(sub, ps) && NoRepeats(ps)
    ensures NoRepeats(sub)
  {
    if sub != [] {
      var ps' := ps[..|ps| - 1];
      if Subsequence(sub, ps') {
        SubsequenceNoRepeats(sub, ps');
      } else {
        SubsequenceNoRepeats(sub[..|sub| - 1], ps');
        SubsequenceElements(sub[..|sub| - 1], ps');
        assert ps[|ps| - 1] !in ps';
        assert forall i | 0 <= i < |sub| - 1 :: sub[i] in sub[..|sub| - 1];
      }
    }
  }
}
