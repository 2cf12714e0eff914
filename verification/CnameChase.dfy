/** Following CNAME records through the local zones, up to sixteen lookups. */
module CnameChase {
  import opened Text
  import opened Wrappers

  // --- Chains in the graph of a partial function

  /** The node reached from `start` after k steps, if there is one. */
  function Reached<N>(next: N -> Option<N>, start: N, k: nat): Option<N> {
    if k == 0 then Some(start)
    else
      var before := Reached(next, start, k - 1);
      if before.None? then None else next(before.value)
  }

  /** The chain ends after exactly k steps. */
  predicate EndsAfter<N>(next: N -> Option<N>, start: N, k: nat) {
    var n := Reached(next, start, k);
    n.Some? && next(n.value).None?
  }

  ghost predicate Revisits<N>(next: N -> Option<N>, start: N, i: nat, j: nat) {
    i < j && Reached(next, start, i).Some? && Reached(next, start, i) == Reached(next, start, j)
  }

  lemma {:induction false} ReachedBefore<N>(next: N -> Option<N>, start: N, i: nat, k: nat)
    requires i <= k && Reached(next, start, k).Some?
    ensures Reached(next, start, i).Some? && (i < k ==> next(Reached(next, start, i).value).Some?)
    decreases k
  {
    if i < k {
      ReachedBefore(next, start, i, k - 1);
    }
  }

  lemma {:induction false} Shift<N>(next: N -> Option<N>, start: N, i: nat, j: nat, d: nat)
    requires Reached(next, start, i) == Reached(next, start, j)
    ensures Reached(next, start, i + d) == Reached(next, start, j + d)
  {
    if d > 0 {
      Shift(next, start, i, j, d - 1);
    }
  }

  /** A chain that revisits a node never ends. */
  lemma CycleNeverEnds<N>(next: N -> Option<N>, start: N, i: nat, j: nat, k: nat)
    requires Revisits(next, start, i, j)
    ensures !EndsAfter(next, start, k)
  {
    if EndsAfter(next, start, k) {
      if j <= k {
        Shift(next, start, i, j, k - j);
        ReachedBefore(next, start, i + (k - j), k);
      } else {
        ReachedBefore(next, start, k, j);
      }
    }
  }

  lemma NoEnd<N>(next: N -> Option<N>, start: N, i: nat, j: nat)
    requires Revisits(next, start, i, j)
    ensures forall k: nat :: !EndsAfter(next, start, k)
  {
    forall k: nat ensures !EndsAfter(next, start, k) {
      CycleNeverEnds(next, start, i, j, k);
    }
  }

  lemma NoRevisit<N>(next: N -> Option<N>, start: N, k: nat)
    requires EndsAfter(next, start, k)
    ensures forall i, j :: !Revisits(next, start, i, j)
  {
    forall i, j ensures !Revisits(next, start, i, j) {
      if Revisits(next, start, i, j) {
        CycleNeverEnds(next, start, i, j, k);
      }
    }
  }

  // --- The chase

  /** A CNAME record, already qualified against its zone. */
  datatype Record = Record(name: string, rdata: string)

  datatype Chain = Chain(records: seq<Record>, target: string, loopDetected: bool)

  const MAX_DEPTH := 16

  /** Lower case, trimmed, with a final dot. */
  function Canonicalize(name: string): string {
    var n := Lower(TrimSpace(name));
    if n == "" then "." else if HasSuffix(n, ".") then n else n + "."
  }

  /** From a name to the canonical target of its CNAME record. */
  function Target(find: string -> Option<Record>): string -> Option<string> {
    (name: string) => match find(name) case None => None case Some(r) => Some(Canonicalize(r.rdata))
  }

  /** Names that differ only in case or outer white space, or in a missing final dot, are one
      name; the canonical form ends with a dot and has no upper-case letter. */
  lemma CanonicalForm(before: string, name: string, after: string)
    requires AllSpace(before) && AllSpace(after)
    ensures Canonicalize(before + name + after) == Canonicalize(name)
    ensures var c := Canonicalize(name);
            c != "" && c[|c| - 1] == '.' && forall i :: 0 <= i < |c| ==> !('A' <= c[i] <= 'Z')
    ensures var t := TrimSpace(name);
            Canonicalize(name) == if t != "" && t[|t| - 1] == '.' then Lower(t) else Lower(t) + "."
  {
    TrimIgnoresOuter(before, name, after);
    var n := Lower(TrimSpace(name));
    assert n != "" ==> n[|n| - 1] == LowerChar(TrimSpace(name)[|n| - 1]);
    assert n == "" ==> n + "." == ".";
  }

  lemma ReachedStart<N>(next: N -> Option<N>, start: N)
    ensures Reached(next, start, 0) == Some(start)
  {
  }

  lemma OneStep(find: string -> Option<Record>, start: string, i: nat, current: string)
    requires Reached(Target(find), start, i) == Some(current)
    ensures find(current).None? ==> EndsAfter(Target(find), start, i)
    ensures find(current).Some? ==>
              && !EndsAfter(Target(find), start, i)
              && Reached(Target(find), start, i + 1) == Some(Canonicalize(find(current).value.rdata))
  {
    hide Canonicalize;
  }

  /** The records are those of the first steps of the chain, whose names all differ. */
  ghost predicate IsPath(find: string -> Option<Record>, start: string, records: seq<Record>) {
    var next := Target(find);
    && (forall i :: 0 <= i < |records| ==>
          Reached(next, start, i).Some? && find(Reached(next, start, i).value) == Some(records[i]))
    && (forall i, j :: 0 <= i < j < |records| ==> Reached(next, start, i) != Reached(next, start, j))
  }

  /** The three ways the loop ends: a name met again, a name without CNAME, the maximum
      depth. */
  ghost predicate Ends(find: string -> Option<Record>, start: string, r: Chain) {
    var next, n := Target(find), |r.records|;
    && IsPath(find, start, r.records) && n <= MAX_DEPTH
    && if !r.loopDetected then n < MAX_DEPTH && EndsAfter(next, start, n) && r.target == Reached(next, start, n).value
       else if n == MAX_DEPTH then Reached(next, start, n) == Some(r.target)
       else r.target == "" && exists i :: Revisits(next, start, i, n)
  }

  /** A record found for a name is owned by that name. */
  ghost predicate OwnNames(find: string -> Option<Record>) {
    forall n :: find(n).Some? ==> Canonicalize(find(n).value.name) == n
  }

  lemma OwnersDiffer(find: string -> Option<Record>, start: string, records: seq<Record>)
    requires IsPath(find, start, records) && OwnNames(find)
    ensures forall i, j :: 0 <= i < j < |records| ==> records[i].name != records[j].name
  {
    hide Reached, Target, Canonicalize;
    var next := Target(find);
    forall i | 0 <= i < |records| ensures Reached(next, start, i) == Some(Canonicalize(records[i].name)) {
      assert find(Reached(next, start, i).value) == Some(records[i]);
    }
  }

  lemma PathGoesOn(find: string -> Option<Record>, start: string, records: seq<Record>, k: nat)
    requires IsPath(find, start, records) && k < |records|
    ensures !EndsAfter(Target(find), start, k)
  {
    hide Canonicalize;
  }

  lemma PathGrows(find: string -> Option<Record>, start: string, records: seq<Record>, r: Record)
    requires IsPath(find, start, records)
    requires Reached(Target(find), start, |records|).Some? && find(Reached(Target(find), start, |records|).value) == Some(r)
    requires forall i :: 0 <= i < |records| ==> Reached(Target(find), start, i) != Reached(Target(find), start, |records|)
    ensures IsPath(find, start, records + [r])
  {
    hide Reached, Target;
  }

  /** No loop is reported exactly when the chain ends within fifteen steps, and every revisit,
      anywhere along the chain, is reported. */
  lemma EndsExactly(find: string -> Option<Record>, start: string, r: Chain)
    requires Ends(find, start, r)
    ensures !r.loopDetected <==> exists k :: 0 <= k < MAX_DEPTH && EndsAfter(Target(find), start, k)
    ensures (exists i, j :: Revisits(Target(find), start, i, j)) ==> r.loopDetected
  {
    hide Reached, Target, EndsAfter, IsPath;
    var next, n := Target(find), |r.records|;
    if !r.loopDetected {
      NoRevisit(next, start, n);
    } else if n < MAX_DEPTH {
      var i :| Revisits(next, start, i, n);
      NoEnd(next, start, i, n);
    } else {
      forall k | 0 <= k < MAX_DEPTH ensures !EndsAfter(next, start, k) {
        PathGoesOn(find, start, r.records, k);
      }
    }
  }

  /** The loop of chaseCNAMEInZones, for a fixed name-to-CNAME function. */
  method Follow(find: string -> Option<Record>, name: string) returns (r: Chain)
    ensures Ends(find, Canonicalize(name), r)
  {
    hide Canonicalize, Target, Reached, EndsAfter, IsPath;
    ghost var next := Target(find);
    ghost var start := Canonicalize(name);
    var current := Canonicalize(name);
    var visited: set<string> := {};
    r := Chain([], "", false);
    ReachedStart(next, start);
    EmptyPath(find, start);
    for i := 0 to MAX_DEPTH
      invariant r.target == "" && !r.loopDetected && |r.records| == i
      invariant Reached(next, start, i) == Some(current) && IsPath(find, start, r.records)
      invariant forall n :: n in visited <==> exists p :: 0 <= p < i && Reached(next, start, p) == Some(n)
    {
      if current in visited {
        ghost var p :| 0 <= p < i && Reached(next, start, p) == Some(current);
        assert Revisits(next, start, p, i);
        r := r.(loopDetected := true);
        return;
      }
      visited := visited + {current};
      var found := find(current);
      OneStep(find, start, i, current);
      if found.None? {
        r := r.(target := current);
        return;
      }
      PathGrows(find, start, r.records, found.value);
      r := r.(records := r.records + [found.value]);
      current := Canonicalize(found.value.rdata);
    }
    r := r.(loopDetected := true, target := current);
  }

  lemma EmptyPath(find: string -> Option<Record>, start: string)
    ensures IsPath(find, start, [])
  {
  }

  /** chaseCNAMEInZones: no loop is reported exactly when the chain ends within fifteen steps;
      then the records are that path of different names, and of different owners if each record
      is owned by the name it was found for, and the target is its end.  Every
      revisit, anywhere along the chain, is reported, at the first name met again or after
      sixteen lookups. */
  method Chase(find: string -> Option<Record>, name: string) returns (r: Chain)
    ensures Ends(find, Canonicalize(name), r)
    ensures !r.loopDetected <==> exists k :: 0 <= k <= 15 && EndsAfter(Target(find), Canonicalize(name), k)
    ensures (exists i, j :: Revisits(Target(find), Canonicalize(name), i, j)) ==> r.loopDetected
    ensures OwnNames(find) ==> forall i, j :: 0 <= i < j < |r.records| ==> r.records[i].name != r.records[j].name
  {
    hide Canonicalize, Target, Reached, EndsAfter, IsPath, Revisits, OwnNames;
    r := Follow(find, name);
    EndsExactly(find, Canonicalize(name), r);
    if OwnNames(find) {
      OwnersDiffer(find, Canonicalize(name), r.records);
    }
  }
}
