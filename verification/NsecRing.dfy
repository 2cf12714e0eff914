/** NSEC coverage: the range test of the aggressive negative cache, over the ring of NSEC
    records of one zone (sections 4.1.1 and 6.1 of RFC 4034). */
module NsecRing {
  import opened CanonicalOrder

  /** nameInNSECRange, with the wrap-around when next is not above owner. */
  predicate InRange(name: Name, owner: Name, next: Name) {
    if Compare(owner, next) < 0 then Compare(name, owner) > 0 && Compare(name, next) < 0
    else Compare(name, owner) > 0 || Compare(name, next) < 0
  }

  /** The owners of a zone in canonical order. */
  ghost predicate Ascending(owners: seq<Name>) {
    forall i, j :: 0 <= i < j < |owners| ==> Compare(owners[i], owners[j]) < 0
  }

  ghost function NextIndex(owners: seq<Name>, i: nat): nat
    requires i < |owners|
  {
    if i + 1 < |owners| then i + 1 else 0
  }

  /** Record i of the ring covers the name. */
  ghost predicate Covers(owners: seq<Name>, i: nat, name: Name)
    requires i < |owners|
  {
    InRange(name, owners[i], owners[NextIndex(owners, i)])
  }

  ghost predicate IsOwner(owners: seq<Name>, name: Name) {
    exists j :: 0 <= j < |owners| && Same(name, owners[j])
  }

  /** No owner lies in the range of any record. */
  lemma OwnerNotCovered(owners: seq<Name>, i: nat, j: nat, name: Name)
    requires Ascending(owners) && i < |owners| && j < |owners| && Same(name, owners[j])
    ensures !Covers(owners, i, name)
  {
    var k := NextIndex(owners, i);
    CompareSame(name, owners[j], owners[i]);
    CompareSame(name, owners[j], owners[k]);
    NameOrder(owners[i], owners[j]);
    NameOrder(owners[j], owners[k]);
    NameOrder(owners[i], owners[k]);
  }

  /** How many owners are below a name that is not an owner. */
  lemma {:induction false} Position(owners: seq<Name>, name: Name) returns (k: nat)
    requires Ascending(owners) && !IsOwner(owners, name)
    ensures k <= |owners|
    ensures forall j :: 0 <= j < k ==> Compare(owners[j], name) < 0
    ensures forall j :: k <= j < |owners| ==> Compare(name, owners[j]) < 0
  {
    if owners == [] {
      return 0;
    }
    var n := |owners| - 1;
    assert !IsOwner(owners[..n], name);
    k := Position(owners[..n], name);
    NameOrder(name, owners[n]);
    if Compare(owners[n], name) < 0 {
      forall j | 0 <= j < n ensures Compare(owners[j], name) < 0 {
        NameTransitive(owners[j], owners[n], name);
      }
      return n + 1;
    }
  }

  /** Every name that is not an owner is covered by exactly one record of the ring. */
  lemma CoveredOnce(owners: seq<Name>, name: Name) returns (i: nat)
    requires Ascending(owners) && owners != [] && !IsOwner(owners, name)
    ensures i < |owners|
    ensures forall j :: 0 <= j < |owners| ==> (Covers(owners, j, name) <==> j == i)
  {
    var k := Position(owners, name);
    i := if k == 0 then |owners| - 1 else k - 1;
    forall j | 0 <= j < |owners| ensures Covers(owners, j, name) <==> j == i {
      var next := NextIndex(owners, j);
      NameOrder(owners[j], name);
      NameOrder(owners[next], name);
      NameOrder(owners[j], owners[next]);
    }
  }
}
