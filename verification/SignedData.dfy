/** The byte string an RRSIG signature covers (sections 3.1.8.1 and 6.3 of RFC 4034). */
module SignedData {
  import opened WireNames

  /** An RRSIG without its signature. */
  datatype Rrsig = Rrsig(
    typeCovered: uint16, algorithm: byte, labels: byte, originalTTL: uint32, expiration: uint32,
    inception: uint32, keyTag: uint16, signer: string)

  /** What packing a record's data into the 65535-byte buffer gives. */
  datatype RData = Absent | Packed(data: bytes) | PackFails {
    predicate Fits() {
      Packed? ==> |data| <= 65535
    }
  }

  datatype Record = Nil | NoOwner | Record(owner: string, rtype: uint16, rclass: uint16, rdata: RData)

  /** A record with its packed data. */
  datatype Row = Row(owner: string, rtype: uint16, rclass: uint16, rdata: bytes)

  datatype Error = NilRrsig | NilSigner | NilRecord | NilOwner | PackError

  datatype Result<T> = Ok(value: T) | Err(error: Error)

  // --- Bytes

  function U16(x: uint16): (bs: bytes)
    ensures |bs| == 2
  {
    [x / 256, x % 256]
  }

  function U32(x: uint32): (bs: bytes)
    ensures |bs| == 4
  {
    U16(x / 0x1_0000) + U16(x % 0x1_0000)
  }

  function Prefix(sig: Rrsig): (bs: bytes)
    ensures |bs| == 18
  {
    U16(sig.typeCovered) + [sig.algorithm, sig.labels] + U32(sig.originalTTL) + U32(sig.expiration)
    + U32(sig.inception) + U16(sig.keyTag)
  }

  function RowHeader(row: Row, ttl: uint32): (bs: bytes)
    ensures |bs| == 10
  {
    U16(row.rtype) + U16(row.rclass) + U32(ttl) + U16(|row.rdata| % 0x1_0000)
  }

  function RowBytes(row: Row, ttl: uint32): bytes {
    WireName(row.owner) + (RowHeader(row, ttl) + row.rdata)
  }

  /** The bytes of the rows, in order. */
  function RowsBytes(rows: seq<Row>, ttl: uint32): bytes {
    if rows == [] then [] else RowBytes(rows[0], ttl) + RowsBytes(rows[1..], ttl)
  }

  function Assemble(sig: Rrsig, rows: seq<Row>): bytes {
    Prefix(sig) + (WireName(sig.signer) + RowsBytes(rows, sig.originalTTL))
  }

  // --- Order of rows

  /** bytes.Compare(a, b) <= 0. */
  predicate BytesLeq(a: bytes, b: bytes) {
    a == [] || (b != [] && (a[0] < b[0] || (a[0] == b[0] && BytesLeq(a[1..], b[1..]))))
  }

  lemma {:induction false} BytesOrder(a: bytes, b: bytes)
    ensures BytesLeq(a, b) || BytesLeq(b, a)
    ensures BytesLeq(a, b) && BytesLeq(b, a) ==> a == b
  {
    if a != [] && b != [] {
      BytesOrder(a[1..], b[1..]);
      assert a == [a[0]] + a[1..] && b == [b[0]] + b[1..];
    }
  }

  lemma {:induction false} BytesTransitive(a: bytes, b: bytes, c: bytes)
    requires BytesLeq(a, b) && BytesLeq(b, c)
    ensures BytesLeq(a, c)
  {
    if a != [] && a[0] == b[0] == c[0] {
      BytesTransitive(a[1..], b[1..], c[1..]);
    }
  }

  /** The order is that of the first byte in which two strings differ, and a proper prefix comes
      first. */
  lemma {:induction false} FirstByteDecides(common: bytes, x: byte, r: bytes, y: byte, s: bytes)
    requires x < y
    ensures BytesLeq(common + [x] + r, common + [y] + s) && !BytesLeq(common + [y] + s, common + [x] + r)
    ensures BytesLeq(common, common + [x] + r) && !BytesLeq(common + [x] + r, common)
  {
    var a, b := common + [x] + r, common + [y] + s;
    if common != [] {
      FirstByteDecides(common[1..], x, r, y, s);
      assert a[1..] == common[1..] + [x] + r && b[1..] == common[1..] + [y] + s;
    }
  }

  ghost predicate Sorted(rows: seq<Row>) {
    forall i, j :: 0 <= i < j < |rows| ==> BytesLeq(rows[i].rdata, rows[j].rdata)
  }

  // --- The construction

  /** Packing stops at the first record that cannot be packed. */
  function PackAll(rrSet: seq<Record>): (r: Result<seq<Row>>)
    requires forall i :: 0 <= i < |rrSet| && rrSet[i].Record? ==> rrSet[i].rdata.Fits()
    ensures r.Ok? ==> |r.value| == |rrSet| && forall i :: 0 <= i < |rrSet| ==> |r.value[i].rdata| <= 65535
  {
    if rrSet == [] then Ok([])
    else
      var before := PackAll(rrSet[..|rrSet| - 1]);
      if before.Err? then before
      else
        match rrSet[|rrSet| - 1]
        case Nil => Err(NilRecord)
        case NoOwner => Err(NilOwner)
        case Record(owner, rtype, rclass, rdata) =>
          match rdata
          case PackFails => Err(PackError)
          case Absent => Ok(before.value + [Row(owner, rtype, rclass, [])])
          case Packed(data) => assert rdata.Fits(); Ok(before.value + [Row(owner, rtype, rclass, data)])
  }

  /** sort.Slice by data: some ascending rearrangement, nothing being promised about rows
      with equal data. */
  method SortByData(a: array<Row>)
    modifies a
    ensures Sorted(a[..]) && multiset(a[..]) == multiset(old(a[..]))
  {
    hide BytesLeq;
    for i := 0 to a.Length
      invariant multiset(a[..]) == multiset(old(a[..]))
      invariant forall p, q :: 0 <= p < i && p < q < a.Length ==> BytesLeq(a[p].rdata, a[q].rdata)
    {
      var least := FindLeast(a, i);
      Swap(a, i, least);
    }
  }

  method Swap(a: array<Row>, i: nat, j: nat)
    requires i <= j < a.Length
    modifies a
    ensures a[i] == old(a[j]) && a[j] == old(a[i])
    ensures forall k :: 0 <= k < a.Length && k != i && k != j ==> a[k] == old(a[k])
    ensures multiset(a[..]) == multiset(old(a[..]))
  {
    a[i], a[j] := a[j], a[i];
  }

  method FindLeast(a: array<Row>, i: nat) returns (least: nat)
    requires i < a.Length
    ensures i <= least < a.Length
    ensures forall q :: i <= q < a.Length ==> BytesLeq(a[least].rdata, a[q].rdata)
  {
    least := i;
    BytesOrder(a[i].rdata, a[i].rdata);
    for j := i + 1 to a.Length
      invariant i <= least < a.Length
      invariant forall q :: i <= q < j ==> BytesLeq(a[least].rdata, a[q].rdata)
    {
      BytesOrder(a[least].rdata, a[j].rdata);
      if !BytesLeq(a[least].rdata, a[j].rdata) {
        forall q | i <= q < j ensures BytesLeq(a[j].rdata, a[q].rdata) {
          BytesTransitive(a[j].rdata, a[least].rdata, a[q].rdata);
        }
        least := j;
        BytesOrder(a[j].rdata, a[j].rdata);
      }
    }
  }

  /** The RRSIG argument, whose pointer and signer name may be missing. */
  datatype Signature = MissingRrsig | MissingSigner | Present(sig: Rrsig)

  /** The rows in some ascending order. */
  ghost predicate IsSorting(rows: seq<Row>, sorted: seq<Row>) {
    Sorted(sorted) && multiset(sorted) == multiset(rows)
  }

  /** buildSignedDataForValidation. */
  method Build(rrSet: seq<Record>, signature: Signature) returns (r: Result<bytes>)
    requires AllFit(rrSet)
    ensures r.Ok? <==> signature.Present? && PackAll(rrSet).Ok?
    ensures signature.MissingRrsig? ==> r == Err(NilRrsig)
    ensures signature.MissingSigner? ==> r == Err(NilSigner)
    ensures signature.Present? && PackAll(rrSet).Err? ==> r == Err(PackAll(rrSet).error)
    ensures r.Ok? ==> Built(rrSet, signature.sig, r.value)
  {
    hide Prefix, WireName, RowsBytes, PackAll, BytesLeq;
    match signature
    case MissingRrsig => return Err(NilRrsig);
    case MissingSigner => return Err(NilSigner);
    case Present(sig) =>
      var rows := Pack(rrSet);
      if rows.Err? {
        return Err(rows.error);
      }
      var a := new Row[|rows.value|](i requires 0 <= i < |rows.value| => rows.value[i]);
      assert a[..] == rows.value;
      SortByData(a);
      var signerWire := CanonicalWireName(sig.signer);
      var data := WriteRows(Prefix(sig) + signerWire, a[..], sig.originalTTL);
      assert data == Assemble(sig, a[..]);
      return Ok(data);
  }

  /** The packing loop. */
  method Pack(rrSet: seq<Record>) returns (r: Result<seq<Row>>)
    requires forall i :: 0 <= i < |rrSet| && rrSet[i].Record? ==> rrSet[i].rdata.Fits()
    ensures r == PackAll(rrSet)
  {
    var rows: seq<Row> := [];
    for i := 0 to |rrSet|
      invariant PackAll(rrSet[..i]) == Ok(rows)
    {
      assert rrSet[..i + 1][..i] == rrSet[..i];
      match rrSet[i]
      case Nil => PackStops(rrSet, i + 1); return Err(NilRecord);
      case NoOwner => PackStops(rrSet, i + 1); return Err(NilOwner);
      case Record(owner, rtype, rclass, rdata) =>
        match rdata
        case PackFails => PackStops(rrSet, i + 1); return Err(PackError);
        case Absent => rows := rows + [Row(owner, rtype, rclass, [])];
        case Packed(bs) => rows := rows + [Row(owner, rtype, rclass, bs)];
    }
    assert rrSet[..|rrSet|] == rrSet;
    return Ok(rows);
  }

  /** An error among the first n records is the error of the whole set. */
  lemma {:induction false} PackStops(rrSet: seq<Record>, n: nat)
    requires n <= |rrSet| && forall i :: 0 <= i < |rrSet| && rrSet[i].Record? ==> rrSet[i].rdata.Fits()
    ensures PackAll(rrSet[..n]).Err? ==> PackAll(rrSet) == PackAll(rrSet[..n])
    decreases |rrSet| - n
  {
    if n < |rrSet| {
      PackStops(rrSet, n + 1);
      assert rrSet[..n + 1][..n] == rrSet[..n];
    } else {
      assert rrSet[..n] == rrSet;
    }
  }

  /** The loop that appends the sorted rows. */
  method WriteRows(start: bytes, rows: seq<Row>, ttl: uint32) returns (data: bytes)
    ensures data == start + RowsBytes(rows, ttl)
  {
    hide RowBytes, RowsBytes;
    data := start;
    RowsBytesNone(ttl);
    for i := 0 to |rows|
      invariant data == start + RowsBytes(rows[..i], ttl)
    {
      data := WriteRow(data, rows[i], ttl);
      RowsBytesSnoc(rows[..i], rows[i], ttl);
      assert rows[..i + 1] == rows[..i] + [rows[i]];
    }
    assert rows[..|rows|] == rows;
  }

  method WriteRow(start: bytes, row: Row, ttl: uint32) returns (data: bytes)
    ensures data == start + RowBytes(row, ttl)
  {
    hide WireName, RowHeader;
    var ownerWire := CanonicalWireName(row.owner);
    data := start + ownerWire;
    data := data + RowHeader(row, ttl);
    data := data + row.rdata;
  }

  lemma RowsBytesNone(ttl: uint32)
    ensures RowsBytes([], ttl) == []
  {
  }

  lemma {:induction false} RowsBytesSnoc(rows: seq<Row>, row: Row, ttl: uint32)
    ensures RowsBytes(rows + [row], ttl) == RowsBytes(rows, ttl) + RowBytes(row, ttl)
  {
    hide RowBytes;
    if rows == [] {
      assert (rows + [row])[1..] == [];
    } else {
      assert (rows + [row])[1..] == rows[1..] + [row];
      RowsBytesSnoc(rows[1..], row, ttl);
    }
  }

  // --- The order of the record set does not matter

  /** One record set: the same canonical owner, type and class throughout. */
  ghost predicate OneSet(rows: seq<Row>, first: Row) {
    forall i :: 0 <= i < |rows| ==>
      WireName(rows[i].owner) == WireName(first.owner) && rows[i].rtype == first.rtype && rows[i].rclass == first.rclass
  }

  lemma {:induction false} SameRows(a: seq<Row>, b: seq<Row>, first: Row, ttl: uint32)
    requires OneSet(a, first) && OneSet(b, first)
    requires |a| == |b| && forall i :: 0 <= i < |a| ==> a[i].rdata == b[i].rdata
    ensures RowsBytes(a, ttl) == RowsBytes(b, ttl)
  {
    hide WireName;
    if a != [] {
      SameRows(a[1..], b[1..], first, ttl);
      assert RowBytes(a[0], ttl) == RowBytes(b[0], ttl);
    }
  }

  /** However a record set is ordered on input, and however the sort arranges equal data,
      the signed bytes are the same. */
  lemma OrderIrrelevant(sig: Rrsig, rows: seq<Row>, rows': seq<Row>, sorted: seq<Row>, sorted': seq<Row>, first: Row)
    requires multiset(rows) == multiset(rows') && OneSet(rows, first)
    requires IsSorting(rows, sorted) && IsSorting(rows', sorted')
    ensures Assemble(sig, sorted) == Assemble(sig, sorted')
  {
    SortingsAgree(sorted, sorted');
    StaysOneSet(rows, sorted, first);
    StaysOneSet(rows, sorted', first);
    SameRows(sorted, sorted', first, sig.originalTTL);
  }

  lemma StaysOneSet(rows: seq<Row>, sorted: seq<Row>, first: Row)
    requires OneSet(rows, first) && multiset(sorted) == multiset(rows)
    ensures OneSet(sorted, first)
  {
    hide WireName;
    forall i | 0 <= i < |sorted|
      ensures WireName(sorted[i].owner) == WireName(first.owner) && sorted[i].rtype == first.rtype
              && sorted[i].rclass == first.rclass
    {
      assert sorted[i] in multiset(rows);
      var j :| 0 <= j < |rows| && rows[j] == sorted[i];
    }
  }

  /** Two ascending arrangements of the same rows carry the same data, place by place. */
  lemma {:induction false} SortingsAgree(a: seq<Row>, b: seq<Row>)
    requires Sorted(a) && Sorted(b) && multiset(a) == multiset(b)
    ensures SameData(a, b)
  {
    hide BytesLeq, Sorted, SameData;
    if a == [] {
      NothingSorted(a, b);
    } else {
      var j := Occurrence(b, a, 0);
      DropBoth(a, b, j);
      SortingsAgree(a[1..], b[..j] + b[j + 1..]);
      forall i | 0 <= i <= j ensures b[i].rdata == a[0].rdata {
        var p := Occurrence(a, b, i);
        LeastFirst(a, p);
        LeastSoFar(b, i, j);
        BytesOrder(a[0].rdata, b[i].rdata);
      }
      PutBack(a, b, j);
    }
  }

  ghost predicate SameData(a: seq<Row>, b: seq<Row>) {
    |a| == |b| && forall i :: 0 <= i < |a| ==> a[i].rdata == b[i].rdata
  }

  lemma NothingSorted(a: seq<Row>, b: seq<Row>)
    requires a == [] && multiset(a) == multiset(b)
    ensures SameData(a, b)
  {
    assert |multiset(b)| == 0;
  }

  lemma LeastSoFar(b: seq<Row>, i: nat, j: nat)
    requires Sorted(b) && i <= j < |b|
    ensures BytesLeq(b[i].rdata, b[j].rdata)
  {
    hide BytesLeq;
    BytesReflexive(b[j].rdata);
  }

  lemma PutBack(a: seq<Row>, b: seq<Row>, j: nat)
    requires a != [] && j < |b| && SameData(a[1..], b[..j] + b[j + 1..])
    requires forall i :: 0 <= i <= j ==> b[i].rdata == a[0].rdata
    ensures SameData(a, b)
  {
    var b' := b[..j] + b[j + 1..];
    forall i | 0 < i < |a| ensures a[i].rdata == b[i].rdata {
      assert a[i] == a[1..][i - 1] && b'[i - 1] == b[if i - 1 < j then i - 1 else i];
    }
  }

  lemma Occurrence<T>(a: seq<T>, b: seq<T>, i: nat) returns (p: nat)
    requires multiset(a) == multiset(b) && i < |b|
    ensures p < |a| && a[p] == b[i]
  {
    assert b[i] in multiset(a);
    p :| 0 <= p < |a| && a[p] == b[i];
  }

  lemma BytesReflexive(a: bytes)
    ensures BytesLeq(a, a)
  {
    BytesOrder(a, a);
  }

  lemma LeastFirst(a: seq<Row>, p: nat)
    requires Sorted(a) && p < |a|
    ensures BytesLeq(a[0].rdata, a[p].rdata)
  {
    BytesReflexive(a[0].rdata);
  }

  lemma DropBoth(a: seq<Row>, b: seq<Row>, j: nat)
    requires Sorted(b) && Sorted(a) && multiset(a) == multiset(b) && a != [] && j < |b| && b[j] == a[0]
    ensures multiset(a[1..]) == multiset(b[..j] + b[j + 1..])
    ensures Sorted(a[1..]) && Sorted(b[..j] + b[j + 1..])
  {
    hide BytesLeq, Sorted;
    assert a[..0] + a[1..] == a[1..];
    SortedWithout(a, 0);
    SortedWithout(b, j);
    MultisetsWithout(a, b, j);
  }

  lemma MultisetsWithout<T>(a: seq<T>, b: seq<T>, j: nat)
    requires multiset(a) == multiset(b) && a != [] && j < |b| && b[j] == a[0]
    ensures multiset(a[1..]) == multiset(b[..j] + b[j + 1..])
  {
    MultisetBack(a, 0);
    MultisetBack(b, j);
    assert a[..0] + a[1..] == a[1..];
    Cancel(multiset(a[1..]), multiset(b[..j] + b[j + 1..]), a[0]);
  }

  lemma Cancel<T>(m: multiset<T>, n: multiset<T>, x: T)
    requires m + multiset{x} == n + multiset{x}
    ensures m == n
  {
    assert m == m + multiset{x} - multiset{x} && n == n + multiset{x} - multiset{x};
  }

  lemma SortedWithout(s: seq<Row>, j: nat)
    requires Sorted(s) && j < |s|
    ensures Sorted(s[..j] + s[j + 1..])
  {
    hide BytesLeq;
  }

  // --- The layout of the signed bytes

  /** The number that bytes stand for, the most significant first. */
  function BigEndian(bs: bytes): nat {
    if bs == [] then 0 else 256 * BigEndian(bs[..|bs| - 1]) + bs[|bs| - 1]
  }

  lemma BigEndianOfU16(x: uint16)
    ensures BigEndian(U16(x)) == x
  {
    assert U16(x)[..1] == [x / 256] && [x / 256][..0] == [];
    assert BigEndian([x / 256]) == x / 256;
  }

  lemma BigEndianOfU32(x: uint32)
    ensures BigEndian(U32(x)) == x
  {
    var hi, lo := x / 0x1_0000, x % 0x1_0000;
    BigEndianOfU16(hi);
    var bs := U32(x);
    assert bs[..3][..2] == U16(hi) && bs[2] == lo / 256 && bs[3] == lo % 256;
    assert bs[..3] == U16(hi) + [lo / 256];
    assert BigEndian(bs[..3]) == 256 * hi + lo / 256;
  }

  /** The bytes hold the rows one after the other: owner name, type, class, original TTL, data
      length, data. */
  ghost predicate HoldsRows(bs: bytes, rows: seq<Row>, ttl: uint32)
    decreases |rows|
  {
    if rows == [] then bs == []
    else
      var row := rows[0];
      var name := WireName(row.owner);
      var end := |name| + 10 + |row.rdata|;
      && |bs| >= end && bs[..|name|] == name
      && var fields := bs[|name|..];
         && BigEndian(fields[0..2]) == row.rtype && BigEndian(fields[2..4]) == row.rclass
         && BigEndian(fields[4..8]) == ttl && BigEndian(fields[8..10]) == |row.rdata|
         && fields[10..10 + |row.rdata|] == row.rdata
         && HoldsRows(bs[end..], rows[1..], ttl)
  }

  lemma HeaderLayout(row: Row, ttl: uint32)
    requires |row.rdata| <= 65535
    ensures var h := RowHeader(row, ttl);
            && BigEndian(h[0..2]) == row.rtype && BigEndian(h[2..4]) == row.rclass
            && BigEndian(h[4..8]) == ttl && BigEndian(h[8..10]) == |row.rdata|
  {
    hide U16, U32, BigEndian;
    var a, b, c, d := U16(row.rtype), U16(row.rclass), U32(ttl), U16(|row.rdata| % 0x1_0000);
    assert (a + b + c + d)[0..2] == a;
    assert (a + b + c + d)[2..4] == b;
    assert (a + b + c + d)[4..8] == c;
    assert (a + b + c + d)[8..10] == d;
    BigEndianOfU16(row.rtype);
    BigEndianOfU16(row.rclass);
    BigEndianOfU32(ttl);
    BigEndianOfU16(|row.rdata|);
  }

  lemma {:induction false} RowsLayout(rows: seq<Row>, ttl: uint32)
    requires forall i :: 0 <= i < |rows| ==> |rows[i].rdata| <= 65535
    ensures HoldsRows(RowsBytes(rows, ttl), rows, ttl)
    decreases |rows|
  {
    hide WireName, RowHeader, BigEndian;
    if rows != [] {
      var row, rest := rows[0], RowsBytes(rows[1..], ttl);
      var name, h := WireName(row.owner), RowHeader(row, ttl);
      var bs := name + (h + row.rdata) + rest;
      assert RowsBytes(rows, ttl) == bs;
      var fields := h + row.rdata + rest;
      assert bs[|name|..] == fields && bs[..|name|] == name;
      assert fields[0..2] == h[0..2] && fields[2..4] == h[2..4] && fields[4..8] == h[4..8] && fields[8..10] == h[8..10];
      assert fields[10..10 + |row.rdata|] == row.rdata && bs[|name| + 10 + |row.rdata|..] == rest;
      HeaderLayout(row, ttl);
      RowsLayout(rows[1..], ttl);
    }
  }

  lemma PrefixLayout(sig: Rrsig, rest: bytes)
    ensures var d := Prefix(sig) + rest;
            && BigEndian(d[0..2]) == sig.typeCovered && d[2] == sig.algorithm && d[3] == sig.labels
            && BigEndian(d[4..8]) == sig.originalTTL && BigEndian(d[8..12]) == sig.expiration
            && BigEndian(d[12..16]) == sig.inception && BigEndian(d[16..18]) == sig.keyTag && d[18..] == rest
  {
    hide U16, U32, BigEndian;
    var d := Prefix(sig) + rest;
    assert d[0..2] == U16(sig.typeCovered) && d[16..18] == U16(sig.keyTag) && d[18..] == rest;
    assert d[4..8] == U32(sig.originalTTL);
    assert d[8..12] == U32(sig.expiration);
    assert d[12..16] == U32(sig.inception);
    BigEndianOfU16(sig.typeCovered);
    BigEndianOfU16(sig.keyTag);
    BigEndianOfU32(sig.originalTTL);
    BigEndianOfU32(sig.expiration);
    BigEndianOfU32(sig.inception);
  }

  /** The layout of what Build returns, field by field: the RRSIG without its signature, the
      signer name, then every record of the set, in ascending order of data. */
  lemma BuiltLayout(rrSet: seq<Record>, sig: Rrsig, data: bytes) returns (sorted: seq<Row>)
    requires AllFit(rrSet) && Built(rrSet, sig, data)
    ensures IsSorting(PackAll(rrSet).value, sorted) && |data| >= 18 + |WireName(sig.signer)|
    ensures BigEndian(data[0..2]) == sig.typeCovered && data[2] == sig.algorithm && data[3] == sig.labels
    ensures BigEndian(data[4..8]) == sig.originalTTL && BigEndian(data[8..12]) == sig.expiration
    ensures BigEndian(data[12..16]) == sig.inception && BigEndian(data[16..18]) == sig.keyTag
    ensures data[18..18 + |WireName(sig.signer)|] == WireName(sig.signer)
    ensures HoldsRows(data[18 + |WireName(sig.signer)|..], sorted, sig.originalTTL)
  {
    hide WireName, RowsBytes, Prefix, BigEndian, HoldsRows, Sorted;
    sorted :| IsSorting(PackAll(rrSet).value, sorted) && data == Assemble(sig, sorted);
    var name, rows := WireName(sig.signer), RowsBytes(sorted, sig.originalTTL);
    PrefixLayout(sig, name + rows);
    assert data[18..] == name + rows;
    assert data[18..18 + |name|] == name && data[18 + |name|..] == rows;
    SortedFit(PackAll(rrSet).value, sorted);
    RowsLayout(sorted, sig.originalTTL);
  }

  lemma SortedFit(rows: seq<Row>, sorted: seq<Row>)
    requires multiset(sorted) == multiset(rows) && forall i :: 0 <= i < |rows| ==> |rows[i].rdata| <= 65535
    ensures forall i :: 0 <= i < |sorted| ==> |sorted[i].rdata| <= 65535
  {
    forall i | 0 <= i < |sorted| ensures |sorted[i].rdata| <= 65535 {
      var p := Occurrence(rows, sorted, i);
    }
  }

  // --- From record sets to rows

  predicate Packs(r: Record) {
    r.Record? && !r.rdata.PackFails?
  }

  function RowOf(r: Record): Row
    requires Packs(r)
  {
    Row(r.owner, r.rtype, r.rclass, if r.rdata.Absent? then [] else r.rdata.data)
  }

  ghost predicate AllFit(rrSet: seq<Record>) {
    forall i :: 0 <= i < |rrSet| && rrSet[i].Record? ==> rrSet[i].rdata.Fits()
  }

  /** Packing succeeds just when every record packs, and then packs record by record. */
  lemma {:induction false} PacksEach(rrSet: seq<Record>)
    requires AllFit(rrSet)
    ensures PackAll(rrSet).Ok? <==> forall i :: 0 <= i < |rrSet| ==> Packs(rrSet[i])
    ensures PackAll(rrSet).Ok? ==> forall i :: 0 <= i < |rrSet| ==> PackAll(rrSet).value[i] == RowOf(rrSet[i])
  {
    if rrSet != [] {
      PacksEach(rrSet[..|rrSet| - 1]);
      assert PackAll(rrSet).Ok? <==> PackAll(rrSet[..|rrSet| - 1]).Ok? && Packs(rrSet[|rrSet| - 1]);
    }
  }

  /** The second pair of sequences shows equal elements the same images as the first. */
  ghost predicate SameImages<A(!new), B(!new)>(a: seq<A>, x: seq<B>, b: seq<A>, y: seq<B>) {
    && |x| == |a| && |y| == |b|
    && forall i, j :: 0 <= i < |a| && 0 <= j < |b| && a[i] == b[j] ==> x[i] == y[j]
  }

  lemma DropImages<A(!new), B(!new)>(a: seq<A>, x: seq<B>, b: seq<A>, y: seq<B>, j: nat)
    requires SameImages(a, x, b, y) && a != [] && j < |b|
    ensures SameImages(a[1..], x[1..], b[..j] + b[j + 1..], y[..j] + y[j + 1..])
  {
    var b', y' := b[..j] + b[j + 1..], y[..j] + y[j + 1..];
    forall i, k | 0 <= i < |a[1..]| && 0 <= k < |b'| && a[1..][i] == b'[k] ensures x[1..][i] == y'[k] {
      var at := if k < j then k else k + 1;
      assert b'[k] == b[at] && y'[k] == y[at];
      assert a[1..][i] == a[i + 1] && x[1..][i] == x[i + 1];
    }
  }

  /** Images of permuted sequences are permuted. */
  lemma {:induction false} ImagesPermuted<A(!new), B(!new)>(a: seq<A>, x: seq<B>, b: seq<A>, y: seq<B>)
    requires SameImages(a, x, b, y) && multiset(a) == multiset(b)
    ensures multiset(x) == multiset(y)
  {
    if a == [] {
      assert |multiset(b)| == 0;
    } else {
      var j := Occurrence(b, a, 0);
      assert x[0] == y[j];
      DropImages(a, x, b, y, j);
      MultisetsWithout(a, b, j);
      ImagesPermuted(a[1..], x[1..], b[..j] + b[j + 1..], y[..j] + y[j + 1..]);
      OneBack(x, y, j);
    }
  }

  lemma OneBack<T>(x: seq<T>, y: seq<T>, j: nat)
    requires x != [] && j < |y| && x[0] == y[j] && multiset(x[1..]) == multiset(y[..j] + y[j + 1..])
    ensures multiset(x) == multiset(y)
  {
    MultisetBack(x, 0);
    MultisetBack(y, j);
    assert x[..0] + x[1..] == x[1..];
  }

  lemma MultisetBack<T>(s: seq<T>, j: nat)
    requires j < |s|
    ensures multiset(s) == multiset(s[..j] + s[j + 1..]) + multiset{s[j]}
  {
    assert s == s[..j] + [s[j]] + s[j + 1..];
  }

  lemma PacksMembers(rrSet: seq<Record>)
    ensures (forall i :: 0 <= i < |rrSet| ==> Packs(rrSet[i])) <==> forall r :: r in multiset(rrSet) ==> Packs(r)
  {
    hide Packs;
    forall r ensures r in multiset(rrSet) <==> r in rrSet {
    }
  }

  lemma RowsPermuted(rrSet: seq<Record>, rrSet': seq<Record>)
    requires AllFit(rrSet) && AllFit(rrSet') && multiset(rrSet) == multiset(rrSet')
    ensures PackAll(rrSet).Ok? <==> PackAll(rrSet').Ok?
    ensures PackAll(rrSet).Ok? ==> multiset(PackAll(rrSet).value) == multiset(PackAll(rrSet').value)
  {
    hide PackAll, RowOf, Packs;
    PacksEach(rrSet);
    PacksEach(rrSet');
    PacksMembers(rrSet);
    PacksMembers(rrSet');
    if PackAll(rrSet).Ok? {
      ImagesPermuted(rrSet, PackAll(rrSet).value, rrSet', PackAll(rrSet').value);
    }
  }

  /** What Build may return for a record set that packs. */
  ghost predicate Built(rrSet: seq<Record>, sig: Rrsig, data: bytes)
    requires AllFit(rrSet)
  {
    PackAll(rrSet).Ok? && exists sorted :: IsSorting(PackAll(rrSet).value, sorted) && data == Assemble(sig, sorted)
  }

  /** One record set: the same canonical owner, type and class throughout. */
  ghost predicate OneRecordSet(rrSet: seq<Record>, first: Row) {
    forall i :: 0 <= i < |rrSet| && rrSet[i].Record? ==>
      && WireName(rrSet[i].owner) == WireName(first.owner)
      && rrSet[i].rtype == first.rtype && rrSet[i].rclass == first.rclass
  }

  /** However a record set is ordered, and however the sort arranges equal data, Build fails for
      all orders or for none, and returns the same bytes. */
  lemma BuildIgnoresOrder(rrSet: seq<Record>, rrSet': seq<Record>, sig: Rrsig, data: bytes, data': bytes, first: Row)
    requires AllFit(rrSet) && AllFit(rrSet') && multiset(rrSet) == multiset(rrSet') && OneRecordSet(rrSet, first)
    ensures PackAll(rrSet).Ok? <==> PackAll(rrSet').Ok?
    ensures Built(rrSet, sig, data) && Built(rrSet', sig, data') ==> data == data'
  {
    hide PackAll, WireName, Sorted, Assemble;
    RowsPermuted(rrSet, rrSet');
    if Built(rrSet, sig, data) && Built(rrSet', sig, data') {
      var sorted :| IsSorting(PackAll(rrSet).value, sorted) && data == Assemble(sig, sorted);
      var sorted' :| IsSorting(PackAll(rrSet').value, sorted') && data' == Assemble(sig, sorted');
      RowsOneSet(rrSet, first);
      OrderIrrelevant(sig, PackAll(rrSet).value, PackAll(rrSet').value, sorted, sorted', first);
    }
  }

  lemma RowsOneSet(rrSet: seq<Record>, first: Row)
    requires AllFit(rrSet) && PackAll(rrSet).Ok? && OneRecordSet(rrSet, first)
    ensures OneSet(PackAll(rrSet).value, first)
  {
    hide PackAll, WireName;
    PacksEach(rrSet);
  }

  // --- The bytes determine what was signed

  lemma U16Injective(x: uint16, y: uint16)
    requires U16(x) == U16(y)
    ensures x == y
  {
    assert U16(x)[0] == U16(y)[0] && U16(x)[1] == U16(y)[1];
  }

  lemma U32Injective(x: uint32, y: uint32)
    requires U32(x) == U32(y)
    ensures x == y
  {
    assert U32(x)[..2] == U16(x / 0x1_0000) && U32(x)[2..] == U16(x % 0x1_0000);
    assert U32(y)[..2] == U16(y / 0x1_0000) && U32(y)[2..] == U16(y % 0x1_0000);
    U16Injective(x / 0x1_0000, y / 0x1_0000);
    U16Injective(x % 0x1_0000, y % 0x1_0000);
  }

  /** Two equal byte strings split at the same place have equal parts. */
  lemma SplitEqual(a: bytes, r: bytes, b: bytes, s: bytes)
    requires |a| == |b| && a + r == b + s
    ensures a == b && r == s
  {
    assert a == (a + r)[..|a|] && r == (a + r)[|a|..];
    assert b == (b + s)[..|b|] && s == (b + s)[|b|..];
  }

  lemma PrefixInjective(x: Rrsig, y: Rrsig)
    requires Prefix(x) == Prefix(y)
    ensures x.(signer := "") == y.(signer := "")
  {
    var p, q := Prefix(x), Prefix(y);
    assert p[0..2] == U16(x.typeCovered) && q[0..2] == U16(y.typeCovered);
    assert p[2] == x.algorithm && q[2] == y.algorithm && p[3] == x.labels && q[3] == y.labels;
    assert p[4..8] == U32(x.originalTTL) && q[4..8] == U32(y.originalTTL);
    assert p[8..12] == U32(x.expiration) && q[8..12] == U32(y.expiration);
    assert p[12..16] == U32(x.inception) && q[12..16] == U32(y.inception);
    assert p[16..18] == U16(x.keyTag) && q[16..18] == U16(y.keyTag);
    U16Injective(x.typeCovered, y.typeCovered);
    U32Injective(x.originalTTL, y.originalTTL);
    U32Injective(x.expiration, y.expiration);
    U32Injective(x.inception, y.inception);
    U16Injective(x.keyTag, y.keyTag);
  }

  lemma HeaderFields(x: Row, ttl: uint32)
    requires |x.rdata| <= 65535
    ensures |RowHeader(x, ttl)| == 10 && RowHeader(x, ttl)[0..2] == U16(x.rtype)
    ensures RowHeader(x, ttl)[2..4] == U16(x.rclass) && RowHeader(x, ttl)[8..10] == U16(|x.rdata|)
  {
    hide U16, U32;
    var a, b, c, d := U16(x.rtype), U16(x.rclass), U32(ttl), U16(|x.rdata| % 0x1_0000);
    assert (a + b + c + d)[0..2] == a;
    assert (a + b + c + d)[2..4] == b;
    assert (a + b + c + d)[8..10] == d;
  }

  lemma HeaderInjective(x: Row, y: Row, ttl: uint32)
    requires RowHeader(x, ttl) == RowHeader(y, ttl) && |x.rdata| <= 65535 && |y.rdata| <= 65535
    ensures x.rtype == y.rtype && x.rclass == y.rclass && |x.rdata| == |y.rdata|
  {
    hide RowHeader, U16;
    HeaderFields(x, ttl);
    HeaderFields(y, ttl);
    U16Injective(x.rtype, y.rtype);
    U16Injective(x.rclass, y.rclass);
    U16Injective(|x.rdata|, |y.rdata|);
  }

  /** What a resolver can hand in: names within the protocol limit, data within the buffer. */
  predicate WithinLimits(rows: seq<Row>) {
    forall i :: 0 <= i < |rows| ==> |rows[i].owner| <= 255 && |rows[i].rdata| <= 65535
  }

  /** Row by row the same canonical owner, type, class and data. */
  ghost predicate SameSigned(a: seq<Row>, b: seq<Row>) {
    |a| == |b| && forall i :: 0 <= i < |a| ==>
      && WireName(a[i].owner) == WireName(b[i].owner) && a[i].rtype == b[i].rtype && a[i].rclass == b[i].rclass
      && a[i].rdata == b[i].rdata
  }

  lemma {:induction false} RowsDetermined(a: seq<Row>, b: seq<Row>, ttl: uint32)
    requires WithinLimits(a) && WithinLimits(b) && RowsBytes(a, ttl) == RowsBytes(b, ttl)
    ensures SameSigned(a, b)
  {
    hide WireName, RowBytes;
    if a == [] || b == [] {
      RowNotEmpty(a, ttl);
      RowNotEmpty(b, ttl);
    } else {
      FirstRowDetermined(a[0], RowsBytes(a[1..], ttl), b[0], RowsBytes(b[1..], ttl), ttl);
      RowsDetermined(a[1..], b[1..], ttl);
      assert forall i :: 0 < i < |a| ==> a[i] == a[1..][i - 1] && b[i] == b[1..][i - 1];
    }
  }

  lemma RowNotEmpty(a: seq<Row>, ttl: uint32)
    ensures RowsBytes(a, ttl) == [] <==> a == []
  {
    if a != [] {
      assert |RowHeader(a[0], ttl)| == 10;
    }
  }

  lemma FirstRowDetermined(x: Row, r: bytes, y: Row, s: bytes, ttl: uint32)
    requires |x.owner| <= 255 && |y.owner| <= 255 && |x.rdata| <= 65535 && |y.rdata| <= 65535
    requires RowBytes(x, ttl) + r == RowBytes(y, ttl) + s
    ensures WireName(x.owner) == WireName(y.owner) && x.rtype == y.rtype && x.rclass == y.rclass
    ensures x.rdata == y.rdata && r == s
  {
    hide WireName, RowHeader;
    var hx, hy := RowHeader(x, ttl), RowHeader(y, ttl);
    assert RowBytes(x, ttl) + r == WireName(x.owner) + (hx + (x.rdata + r));
    assert RowBytes(y, ttl) + s == WireName(y.owner) + (hy + (y.rdata + s));
    SelfDelimiting(x.owner, hx + (x.rdata + r), y.owner, hy + (y.rdata + s));
    SplitEqual(hx, x.rdata + r, hy, y.rdata + s);
    HeaderInjective(x, y, ttl);
    SplitEqual(x.rdata, r, y.rdata, s);
  }

  /** Equal signed bytes come from equal RRSIG fields, the same canonical signer name and
      the same sorted rows. */
  lemma BytesDetermine(x: Rrsig, a: seq<Row>, y: Rrsig, b: seq<Row>)
    requires WithinLimits(a) && WithinLimits(b) && |x.signer| <= 255 && |y.signer| <= 255
    requires Assemble(x, a) == Assemble(y, b)
    ensures x.(signer := "") == y.(signer := "") && WireName(x.signer) == WireName(y.signer)
    ensures SameSigned(a, b)
  {
    hide WireName, RowsBytes, Prefix;
    SplitEqual(Prefix(x), WireName(x.signer) + RowsBytes(a, x.originalTTL),
               Prefix(y), WireName(y.signer) + RowsBytes(b, y.originalTTL));
    PrefixInjective(x, y);
    SelfDelimiting(x.signer, RowsBytes(a, x.originalTTL), y.signer, RowsBytes(b, y.originalTTL));
    RowsDetermined(a, b, x.originalTTL);
  }
}
