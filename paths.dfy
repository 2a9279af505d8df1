/** A line read as a sequence of sections from its up terminal to its down
    terminal, and the edits the service makes to that sequence. */
module Paths {
  import opened Sections

  predicate Distinct<T(==)>(s: seq<T>) {
    forall i, j :: 0 <= i < j < |s| ==> s[i] != s[j]
  }

  /** The position of the first occurrence of `x` in `s`. */
  function IndexOf<T(==)>(s: seq<T>, x: T): (i: nat)
    requires x in s
    ensures i < |s| && s[i] == x && x !in s[..i]
  {
    if s[0] == x then 0 else 1 + IndexOf(s[1..], x)
  }

  lemma IndexOfDistinct<T>(s: seq<T>, i: nat)
    requires Distinct(s) && i < |s|
    ensures IndexOf(s, s[i]) == i
  {
  }

  function InsertAt<T>(s: seq<T>, i: nat, x: T): (r: seq<T>)
    requires i <= |s|
  {
    s[..i] + [x] + s[i..]
  }

  function RemoveAt<T>(s: seq<T>, i: nat): (r: seq<T>)
    requires i < |s|
  {
    s[..i] + s[i + 1..]
  }

  /** Consecutive sections meet: each ends where the next one starts. */
  ghost predicate Linked(cs: seq<Section>) {
    forall i :: 0 <= i < |cs| - 1 ==> cs[i].down == cs[i + 1].up
  }

  /** The stations met along `cs`: the first section's up station, then every
      section's down station. */
  function StationsOf(cs: seq<Section>): seq<StationId>
    requires |cs| >= 1
  {
    seq(|cs| + 1, i requires 0 <= i <= |cs| => if i == 0 then cs[0].up else cs[i - 1].down)
  }

  /** A simple path: at least one section, linked, no station met twice. */
  ghost predicate IsPath(cs: seq<Section>) {
    |cs| >= 1 && Linked(cs) && Distinct(StationsOf(cs))
  }

  lemma {:induction false} PathUpAt(cs: seq<Section>, i: nat)
    requires IsPath(cs) && i < |cs|
    ensures cs[i].up == StationsOf(cs)[i] && cs[i].down == StationsOf(cs)[i + 1]
  {
    if i > 0 {
      assert cs[i - 1].down == cs[i].up;
    }
  }

  /** Splitting section `i` at a new station `x` inserts `x` between its ends. */
  lemma SplitPath(cs: seq<Section>, i: nat, x: StationId, d1: int, d2: int)
    requires IsPath(cs) && i < |cs| && x !in StationsOf(cs)
    ensures var cs' := cs[..i] + [Section(cs[i].up, x, d1), Section(x, cs[i].down, d2)] + cs[i + 1..];
            IsPath(cs') && StationsOf(cs') == InsertAt(StationsOf(cs), i + 1, x)
  {
    var S := StationsOf(cs);
    var cs' := cs[..i] + [Section(cs[i].up, x, d1), Section(x, cs[i].down, d2)] + cs[i + 1..];
    var S' := InsertAt(S, i + 1, x);
    PathUpAt(cs, i);
    assert |cs'| == |cs| + 1;
    forall j | 0 <= j < |S'|
      ensures StationsOf(cs')[j] == S'[j]
    {
      if 0 < j <= i {
        assert cs'[j - 1] == cs[j - 1];
      } else if j == i + 1 {
      } else if j > i + 2 {
        assert cs'[j - 1] == cs[j - 2];
      }
    }
    assert StationsOf(cs') == S';
    forall j | 0 <= j < |cs'| - 1
      ensures cs'[j].down == cs'[j + 1].up
    {
      if j < i - 1 {
        assert cs'[j] == cs[j] && cs'[j + 1] == cs[j + 1];
      } else if j == i - 1 {
        assert cs'[j] == cs[j];
      } else if j >= i + 2 {
        assert cs'[j] == cs[j - 1] && cs'[j + 1] == cs[j];
      }
    }
    assert forall p, q :: 0 <= p < q < |S'| ==> S'[p] != S'[q] by {
      forall p, q | 0 <= p < q < |S'|
        ensures S'[p] != S'[q]
      {
        var p0 := if p <= i then p else p - 1;
        var q0 := if q <= i then q else q - 1;
        if p != i + 1 && q != i + 1 {
          assert S'[p] == S[p0] && S'[q] == S[q0];
        } else if p == i + 1 {
          assert S'[q] == S[q0];
        } else {
          assert S'[p] == S[p0];
        }
      }
    }
  }

  /** A section ending at the up terminal becomes the new first section. */
  lemma PrependPath(cs: seq<Section>, x: StationId, d: int)
    requires IsPath(cs) && x !in StationsOf(cs)
    ensures var cs' := [Section(x, cs[0].up, d)] + cs;
            IsPath(cs') && StationsOf(cs') == [x] + StationsOf(cs)
  {
    var S := StationsOf(cs);
    var cs' := [Section(x, cs[0].up, d)] + cs;
    assert forall j :: 0 < j < |cs'| ==> cs'[j] == cs[j - 1];
    assert StationsOf(cs') == [x] + S;
  }

  /** A section starting at the down terminal becomes the new last section. */
  lemma AppendPath(cs: seq<Section>, x: StationId, d: int)
    requires IsPath(cs) && x !in StationsOf(cs)
    ensures var cs' := cs + [Section(cs[|cs| - 1].down, x, d)];
            IsPath(cs') && StationsOf(cs') == StationsOf(cs) + [x]
  {
    var S := StationsOf(cs);
    var cs' := cs + [Section(cs[|cs| - 1].down, x, d)];
    assert forall j :: 0 <= j < |cs| ==> cs'[j] == cs[j];
    assert StationsOf(cs') == S + [x];
  }

  /** Dropping the first section drops the up terminal. */
  lemma DropFirstPath(cs: seq<Section>)
    requires IsPath(cs) && |cs| >= 2
    ensures IsPath(cs[1..]) && StationsOf(cs[1..]) == StationsOf(cs)[1..]
  {
    var S := StationsOf(cs);
    PathUpAt(cs, 1);
    assert StationsOf(cs[1..]) == S[1..];
  }

  /** Dropping the last section drops the down terminal. */
  lemma DropLastPath(cs: seq<Section>)
    requires IsPath(cs) && |cs| >= 2
    ensures IsPath(cs[..|cs| - 1]) && StationsOf(cs[..|cs| - 1]) == StationsOf(cs)[..|cs|]
  {
    var S := StationsOf(cs);
    assert StationsOf(cs[..|cs| - 1]) == S[..|cs|];
  }

  /** Merging sections `j - 1` and `j` into one removes the station between them. */
  lemma MergePath(cs: seq<Section>, j: nat, d: int)
    requires IsPath(cs) && 0 < j < |cs|
    ensures var cs' := cs[..j - 1] + [Section(cs[j - 1].up, cs[j].down, d)] + cs[j + 1..];
            IsPath(cs') && StationsOf(cs') == RemoveAt(StationsOf(cs), j)
  {
    var S := StationsOf(cs);
    var cs' := cs[..j - 1] + [Section(cs[j - 1].up, cs[j].down, d)] + cs[j + 1..];
    var S' := RemoveAt(S, j);
    PathUpAt(cs, j - 1);
    assert |cs'| == |cs| - 1;
    forall p | 0 <= p < |S'|
      ensures StationsOf(cs')[p] == S'[p]
    {
      if 0 < p < j {
        assert cs'[p - 1] == cs[p - 1];
      } else if p > j {
        assert cs'[p - 1] == cs[p];
      }
    }
    assert StationsOf(cs') == S';
    forall p | 0 <= p < |cs'| - 1
      ensures cs'[p].down == cs'[p + 1].up
    {
      if p < j - 2 {
        assert cs'[p] == cs[p] && cs'[p + 1] == cs[p + 1];
      } else if p == j - 2 {
        assert cs'[p] == cs[p];
      } else if p >= j {
        assert cs'[p] == cs[p + 1] && cs'[p + 1] == cs[p + 2];
      } else {
        assert cs'[p + 1] == cs[p + 2];
      }
    }
    assert forall p, q :: 0 <= p < q < |S'| ==> S'[p] != S'[q] by {
      forall p, q | 0 <= p < q < |S'|
        ensures S'[p] != S'[q]
      {
        assert S'[p] == S[if p < j then p else p + 1];
        assert S'[q] == S[if q < j then q else q + 1];
      }
    }
  }
}
