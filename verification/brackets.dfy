/** Bracket structure of an instruction sequence, stated once for every instruction set of
    the engine: the depth of each prefix, which close matches which open, and the stack of
    pending opens that every one-pass matcher of the repository keeps. */
module Brackets {

  /** What an instruction is to the bracket structure. */
  datatype Kind = Open | Close | Plain

  function Weight(k: Kind): int
  {
    match k
    case Open => 1
    case Close => -1
    case Plain => 0
  }

  /** Opens minus closes among the first `n` elements of `s`. */
  function Depth<T>(s: seq<T>, kind: T -> Kind, n: nat): int
    requires n <= |s|
  {
    if n == 0 then 0 else Depth(s, kind, n - 1) + Weight(kind(s[n - 1]))
  }

  /** No prefix of length at most `n` closes more than it opens. */
  ghost predicate NoStrayClose<T>(s: seq<T>, kind: T -> Kind, n: nat)
    requires n <= |s|
  {
    forall k: nat | k <= n :: Depth(s, kind, k) >= 0
  }

  /** Putting `x` in front shifts every prefix depth by the weight of `x`. */
  lemma {:induction false} DepthCons<T>(x: T, t: seq<T>, kind: T -> Kind, k: nat)
    requires k <= |t|
    ensures Depth([x] + t, kind, k + 1) == Weight(kind(x)) + Depth(t, kind, k)
  {
    if k > 0 {
      DepthCons(x, t, kind, k - 1);
      assert ([x] + t)[k] == t[k - 1];
    }
  }

  /** Every close has an earlier open and every open is closed. */
  ghost predicate Balanced<T>(s: seq<T>, kind: T -> Kind)
  {
    NoStrayClose(s, kind, |s|) && Depth(s, kind, |s|) == 0
  }

  /** The close at `j` is the partner of the open at `i`: it is the first position after
      `i` at which the depth falls back to what it was before `i`. */
  ghost predicate IsMatch<T>(s: seq<T>, kind: T -> Kind, i: int, j: int)
  {
    0 <= i < j < |s| && kind(s[i]) == Open && kind(s[j]) == Close &&
    Depth(s, kind, j + 1) == Depth(s, kind, i) &&
    forall n: nat | i < n <= j :: Depth(s, kind, n) > Depth(s, kind, i)
  }

  /** An open has at most one partner and a close has at most one partner. */
  lemma MatchUnique<T>(s: seq<T>, kind: T -> Kind, i: int, j: int, i': int, j': int)
    requires IsMatch(s, kind, i, j) && IsMatch(s, kind, i', j')
    ensures i == i' <==> j == j'
  {
    // The depth after either close equals the depth before its open, which is below every
    // depth strictly inside the other pair.
    assert Depth(s, kind, j + 1) == Depth(s, kind, i);
    assert Depth(s, kind, j' + 1) == Depth(s, kind, i');
  }

  /** Matched pairs never cross: a pair that opens inside another closes inside it. */
  lemma MatchesNest<T>(s: seq<T>, kind: T -> Kind, i: int, j: int, i': int, j': int)
    requires IsMatch(s, kind, i, j) && IsMatch(s, kind, i', j')
    requires i < i' < j
    ensures j' < j
  {
    assert Depth(s, kind, i') > Depth(s, kind, i) == Depth(s, kind, j + 1);
    MatchUnique(s, kind, i, j, i', j');
  }

  /** In a balanced sequence every open has a partner. */
  lemma CloseOf<T>(s: seq<T>, kind: T -> Kind, i: nat) returns (j: nat)
    requires Balanced(s, kind) && i < |s| && kind(s[i]) == Open
    ensures IsMatch(s, kind, i, j)
  {
    j := ScanForClose(s, kind, i, i + 1);
  }

  lemma {:induction false} ScanForClose<T>(s: seq<T>, kind: T -> Kind, i: nat, k: nat) returns (j: nat)
    requires i < k <= |s| && kind(s[i]) == Open
    requires Depth(s, kind, |s|) <= Depth(s, kind, i)
    requires forall n: nat | i < n <= k :: Depth(s, kind, n) > Depth(s, kind, i)
    ensures IsMatch(s, kind, i, j)
    decreases |s| - k
  {
    assert Depth(s, kind, k) > Depth(s, kind, i);
    if Depth(s, kind, k + 1) > Depth(s, kind, i) {
      j := ScanForClose(s, kind, i, k + 1);
    } else {
      j := k;
    }
  }

  /** When no prefix closes more than it opens, every close has a partner. */
  lemma OpenOf<T>(s: seq<T>, kind: T -> Kind, j: nat) returns (i: nat)
    requires j < |s| && kind(s[j]) == Close && NoStrayClose(s, kind, j + 1)
    ensures IsMatch(s, kind, i, j)
  {
    i := ScanForOpen(s, kind, j, j);
  }

  lemma {:induction false} ScanForOpen<T>(s: seq<T>, kind: T -> Kind, j: nat, k: nat) returns (i: nat)
    requires k <= j < |s| && kind(s[j]) == Close && Depth(s, kind, j + 1) >= 0
    requires forall n: nat | k <= n <= j :: Depth(s, kind, n) > Depth(s, kind, j + 1)
    ensures IsMatch(s, kind, i, j)
    decreases k
  {
    assert Depth(s, kind, k) > Depth(s, kind, j + 1);
    if Depth(s, kind, k - 1) > Depth(s, kind, j + 1) {
      i := ScanForOpen(s, kind, j, k - 1);
    } else {
      i := k - 1;
    }
  }

  /** The stack of pending opens after reading the first `i` elements: one entry per
      unclosed open, bottom first, entry `t` being the open that took the depth from `t`
      to `t + 1` and is still unclosed. */
  ghost predicate Pending<T>(s: seq<T>, kind: T -> Kind, i: nat, opens: seq<nat>)
  {
    i <= |s| && |opens| == Depth(s, kind, i) &&
    forall t | 0 <= t < |opens| ::
      opens[t] < i && kind(s[opens[t]]) == Open && Depth(s, kind, opens[t]) == t &&
      forall n: nat | opens[t] < n <= i :: Depth(s, kind, n) > t
  }

  /** Reading one element: an open is pushed, a close pops its partner (or finds the stack
      empty, which is a stray close), anything else leaves the stack alone. */
  lemma PendingStep<T>(s: seq<T>, kind: T -> Kind, i: nat, opens: seq<nat>)
    requires i < |s| && Pending(s, kind, i, opens)
    ensures kind(s[i]) == Open ==> Pending(s, kind, i + 1, opens + [i])
    ensures kind(s[i]) == Plain ==> Pending(s, kind, i + 1, opens)
    ensures kind(s[i]) == Close && opens != [] ==>
      IsMatch(s, kind, opens[|opens| - 1], i) && Pending(s, kind, i + 1, opens[..|opens| - 1])
    ensures kind(s[i]) == Close && opens == [] ==> Depth(s, kind, i + 1) < 0
  {
    if kind(s[i]) == Close && opens != [] {
      var last := |opens| - 1;
      assert Depth(s, kind, i + 1) == last;
      var popped := opens[..last];
      forall t | 0 <= t < |popped|
        ensures forall n: nat | popped[t] < n <= i + 1 :: Depth(s, kind, n) > t
      {
        assert popped[t] == opens[t];
      }
    }
  }

  /** The bracket index of a whole sequence: it has an entry for exactly the bracket
      positions, and every entry names the position's partner. */
  ghost predicate ExactIndex<T>(s: seq<T>, kind: T -> Kind, m: map<nat, nat>)
  {
    (forall q: nat :: q in m <==> q < |s| && kind(s[q]) != Plain) &&
    (forall q: nat | q in m && q < |s| && kind(s[q]) == Open :: IsMatch(s, kind, q, m[q])) &&
    (forall q: nat | q in m && q < |s| && kind(s[q]) == Close :: IsMatch(s, kind, m[q], q))
  }

  /** The exact index is an involution: following it twice leads back. */
  lemma IndexInvolution<T>(s: seq<T>, kind: T -> Kind, m: map<nat, nat>, q: nat)
    requires ExactIndex(s, kind, m) && q in m
    ensures m[q] in m && m[m[q]] == q && m[q] != q
  {
    var p := m[q];
    if kind(s[q]) == Open {
      assert IsMatch(s, kind, q, p);
      assert p in m;
      MatchUnique(s, kind, q, p, m[p], p);
    } else {
      assert IsMatch(s, kind, p, q);
      assert p in m;
      MatchUnique(s, kind, p, q, p, m[p]);
    }
  }

  /** What a one-pass matcher knows after the first `i` elements: the pending opens, and an
      index holding both ends of every pair already closed and nothing else. */
  ghost predicate Partial<T>(s: seq<T>, kind: T -> Kind, i: nat, opens: seq<nat>, m: map<nat, nat>)
  {
    i <= |s| && NoStrayClose(s, kind, i) && Pending(s, kind, i, opens) &&
    (forall q: nat :: q in m <==> q < i && kind(s[q]) != Plain && q !in opens) &&
    (forall q: nat | q in m && q < |s| && kind(s[q]) == Open :: IsMatch(s, kind, q, m[q])) &&
    (forall q: nat | q in m && q < |s| && kind(s[q]) == Close :: IsMatch(s, kind, m[q], q))
  }

  /** Once every element is read with no open pending, the index is exact and the sequence
      balanced. */
  lemma PartialComplete<T>(s: seq<T>, kind: T -> Kind, m: map<nat, nat>)
    requires Partial(s, kind, |s|, [], m)
    ensures ExactIndex(s, kind, m) && Balanced(s, kind)
  {
  }

  /** A matcher that has read everything but still has opens pending has read an
      unbalanced sequence. */
  lemma PartialUnclosed<T>(s: seq<T>, kind: T -> Kind, opens: seq<nat>, m: map<nat, nat>)
    requires Partial(s, kind, |s|, opens, m) && opens != []
    ensures !Balanced(s, kind)
  {
  }

  lemma PartialOpen<T>(s: seq<T>, kind: T -> Kind, i: nat, opens: seq<nat>, m: map<nat, nat>)
    requires i < |s| && kind(s[i]) == Open && Partial(s, kind, i, opens, m)
    ensures Partial(s, kind, i + 1, opens + [i], m)
  {
    PendingStep(s, kind, i, opens);
  }

  lemma PartialPlain<T>(s: seq<T>, kind: T -> Kind, i: nat, opens: seq<nat>, m: map<nat, nat>)
    requires i < |s| && kind(s[i]) == Plain && Partial(s, kind, i, opens, m)
    ensures Partial(s, kind, i + 1, opens, m)
  {
    PendingStep(s, kind, i, opens);
    assert NoStrayClose(s, kind, i + 1) by {
      assert Depth(s, kind, i + 1) == Depth(s, kind, i);
    }
    forall q: nat ensures q in m <==> q < i + 1 && kind(s[q]) != Plain && q !in opens {
      if q == i {
        assert kind(s[q]) == Plain;
      }
    }
  }

  lemma PartialClose<T>(s: seq<T>, kind: T -> Kind, i: nat, opens: seq<nat>, m: map<nat, nat>)
    requires i < |s| && kind(s[i]) == Close && Partial(s, kind, i, opens, m) && opens != []
    ensures var last := |opens| - 1;
      IsMatch(s, kind, opens[last], i) &&
      Partial(s, kind, i + 1, opens[..last], m[i := opens[last]][opens[last] := i])
  {
    PendingStep(s, kind, i, opens);
    var last := |opens| - 1;
    var matching := opens[last];
    var opens' := opens[..last];
    var m' := m[i := matching][matching := i];
    assert matching !in opens' by {
      forall t | 0 <= t < |opens'| ensures opens'[t] != matching {
        assert opens'[t] == opens[t];
      }
    }
    assert i !in opens;
    forall q: nat ensures q in m' <==> q < i + 1 && kind(s[q]) != Plain && q !in opens' {
      if q != matching && q != i {
        assert q in opens <==> q in opens';
      }
    }
  }

  /** The bookkeeping for one element, of kind `k`, at position `i`: an open is pushed, a
      close pops its partner and records the pair under both positions. A close that finds
      no pending open fails. */
  method Track<T>(ghost s: seq<T>, kind: T -> Kind, i: nat, k: Kind, opens: seq<nat>, m: map<nat, nat>)
    returns (ok: bool, opens': seq<nat>, m': map<nat, nat>)
    requires i < |s| && kind(s[i]) == k && Partial(s, kind, i, opens, m)
    ensures ok <==> !(k == Close && opens == [])
    ensures ok ==> Partial(s, kind, i + 1, opens', m')
    ensures !ok ==> !NoStrayClose(s, kind, i + 1) && !Balanced(s, kind)
  {
    ok, opens', m' := true, opens, m;
    if k == Open {
      PartialOpen(s, kind, i, opens, m);
      opens' := opens + [i];
    } else if k == Close {
      if opens == [] {
        PendingStep(s, kind, i, opens);
        assert Depth(s, kind, i + 1) < 0;
        ok := false;
        return;
      }
      PartialClose(s, kind, i, opens, m);
      var matching := opens[|opens| - 1];
      opens' := opens[..|opens| - 1];
      m' := m[i := matching][matching := i];
    } else {
      PartialPlain(s, kind, i, opens, m);
    }
  }
}
