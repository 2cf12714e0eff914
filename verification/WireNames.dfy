/** Domain names in canonical wire form (section 6.2 of RFC 4034). */
module WireNames {
  import opened Text

  type byte = x: int | 0 <= x < 256
  type uint16 = x: int | 0 <= x < 0x1_0000
  type uint32 = x: int | 0 <= x < 0x1_0000_0000
  type bytes = seq<byte>

  // --- Names in canonical wire form

  predicate IsBlank(c: char) {
    c == ' ' || c == '\t'
  }

  function TrimBlanksLeft(s: string): string {
    if s != [] && IsBlank(s[0]) then TrimBlanksLeft(s[1..]) else s
  }

  function TrimBlanksRight(s: string): string {
    if s != [] && IsBlank(s[|s| - 1]) then TrimBlanksRight(s[..|s| - 1]) else s
  }

  /** The name without surrounding blanks and without its final dot. */
  function Bare(name: string): string {
    TrimSuffix(TrimBlanksRight(TrimBlanksLeft(name)), ".")
  }

  /** Characters are bytes. */
  function Octet(c: char): byte {
    c as int % 256
  }

  function Octets(s: string): (bs: bytes)
    ensures |bs| == |s| && forall i :: 0 <= i < |s| ==> bs[i] == Octet(LowerChar(s[i]))
  {
    seq(|s|, i requires 0 <= i < |s| => Octet(LowerChar(s[i])))
  }

  /** One label: its length modulo 256, then its bytes in lower case; nothing when empty. */
  function LabelBytes(part: string): bytes {
    if part == [] then [] else [|part| % 256] + Octets(part)
  }

  function LabelsBytes(labels: seq<string>): bytes {
    if labels == [] then [] else LabelBytes(labels[0]) + LabelsBytes(labels[1..])
  }

  function WireName(name: string): bytes {
    LabelsBytes(Split(Bare(name), '.')) + [0]
  }

  /** protocol.CanonicalWireName. */
  method CanonicalWireName(name: string) returns (wire: bytes)
    ensures wire == WireName(name)
  {
    var bare := Trim(name);
    wire := ScanLabels(bare);
    wire := wire + [0];
  }

  /** Its trimming loops. */
  method Trim(name: string) returns (bare: string)
    ensures bare == Bare(name)
  {
    hide TrimBlanksLeft, TrimBlanksRight;
    var start := 0;
    assert name[0..] == name;
    while start < |name| && IsBlank(name[start])
      invariant start <= |name| && TrimBlanksLeft(name[start..]) == TrimBlanksLeft(name)
    {
      TrimOneLeft(name, start);
      start := start + 1;
    }
    TrimOneLeft(name, start);
    var left := name[start..];
    var end := |left|;
    assert left[..end] == left;
    while end > 0 && IsBlank(left[end - 1])
      invariant 0 <= end <= |left| && TrimBlanksRight(left[..end]) == TrimBlanksRight(left)
    {
      TrimOneRight(left, end);
      end := end - 1;
    }
    TrimOneRight(left, end);
    bare := left[..end];
    if |bare| > 0 && bare[|bare| - 1] == '.' {
      bare := bare[..|bare| - 1];
    }
  }

  lemma TrimOneLeft(name: string, start: nat)
    requires start <= |name|
    ensures TrimBlanksLeft(name[start..]) ==
            if start < |name| && IsBlank(name[start]) then TrimBlanksLeft(name[start + 1..]) else name[start..]
  {
    if start < |name| {
      assert name[start..][0] == name[start] && name[start..][1..] == name[start + 1..];
    }
  }

  lemma TrimOneRight(name: string, end: nat)
    requires end <= |name|
    ensures TrimBlanksRight(name[..end]) ==
            if end > 0 && IsBlank(name[end - 1]) then TrimBlanksRight(name[..end - 1]) else name[..end]
  {
    if end > 0 {
      assert name[..end][end - 1] == name[end - 1] && name[..end][..end - 1] == name[..end - 1];
    }
  }

  /** What has been written when the scan has `rest` still to go. */
  function Emitted(wire: bytes, rest: string): bytes {
    wire + LabelsBytes(Split(rest, '.'))
  }

  /** Its label loop: each stretch between dots is emitted, empty ones are skipped.  The
      last stretch ends with the name. */
  method ScanLabels(name: string) returns (wire: bytes)
    ensures wire == LabelsBytes(Split(name, '.'))
  {
    hide Split, LabelsBytes, LabelBytes, Emitted;
    wire := [];
    var labelStart := 0;
    ghost var goal := LabelsBytes(Split(name, '.'));
    EmittedAtStart(name);
    for i := 0 to |name|
      invariant 0 <= labelStart <= i && forall j :: labelStart <= j < i ==> name[j] != '.'
      invariant Emitted(wire, name[labelStart..]) == goal
    {
      if name[i] == '.' {
        ScanOne(name, labelStart, i, wire);
        wire := wire + LabelBytes(name[labelStart..i]);
        labelStart := i + 1;
      }
    }
    ScanOne(name, labelStart, |name|, wire);
    wire := wire + LabelBytes(name[labelStart..|name|]);
  }

  lemma EmittedAtStart(name: string)
    ensures Emitted([], name[0..]) == LabelsBytes(Split(name, '.'))
  {
    assert name[0..] == name;
  }

  lemma ScanOne(name: string, start: nat, i: nat, wire: bytes)
    requires start <= i <= |name| && (i < |name| ==> name[i] == '.')
    requires forall j :: start <= j < i ==> name[j] != '.'
    ensures var next := wire + LabelBytes(name[start..i]);
            Emitted(wire, name[start..]) == if i < |name| then Emitted(next, name[i + 1..]) else next
  {
    var part := name[start..i];
    assert '.' !in part;
    if i < |name| {
      assert name[start..] == part + ['.'] + name[i + 1..];
      SplitAtFirst(part, name[i + 1..], '.');
      EmitFirst(wire, part, Split(name[i + 1..], '.'));
    } else {
      assert name[start..] == part;
      SplitWithout(part, '.');
      EmitFirst(wire, part, []);
      assert [part] + [] == [part];
    }
  }

  lemma EmitFirst(wire: bytes, part: string, rest: seq<string>)
    ensures wire + LabelsBytes([part] + rest) == wire + LabelBytes(part) + LabelsBytes(rest)
  {
    hide LabelBytes;
    assert ([part] + rest)[1..] == rest;
  }

  // --- Wire names delimit themselves

  /** How many bytes a reader takes for the name at the start of `bs`. */
  function NameLength(bs: bytes): nat {
    if bs == [] then 0
    else if bs[0] == 0 then 1
    else if |bs| <= bs[0] then |bs|
    else 1 + bs[0] + NameLength(bs[1 + bs[0]..])
  }

  lemma ReadsLabel(part: string, tail: bytes)
    requires |part| < 256
    ensures NameLength(LabelBytes(part) + tail) == |LabelBytes(part)| + NameLength(tail)
  {
    var bs := LabelBytes(part) + tail;
    if part == [] {
      assert bs == tail;
    } else {
      assert bs[0] == |part| && bs[1 + bs[0]..] == tail;
    }
  }

  lemma {:induction false} ReadsLabels(labels: seq<string>, rest: bytes)
    requires forall i :: 0 <= i < |labels| ==> |labels[i]| < 256
    ensures NameLength(LabelsBytes(labels) + ([0] + rest)) == |LabelsBytes(labels)| + 1
  {
    hide NameLength, LabelBytes;
    if labels == [] {
      assert LabelsBytes(labels) + ([0] + rest) == [0] + rest;
      ReadsRoot(rest);
    } else {
      var head, tail := LabelBytes(labels[0]), LabelsBytes(labels[1..]);
      ReadsLabel(labels[0], tail + ([0] + rest));
      ReadsLabels(labels[1..], rest);
      assert head + tail + ([0] + rest) == head + (tail + ([0] + rest));
    }
  }

  lemma ReadsRoot(rest: bytes)
    ensures NameLength([0] + rest) == 1
  {
  }

  lemma {:induction false} PartsShort(s: string, sep: char)
    ensures forall i :: 0 <= i < |Split(s, sep)| ==> |Split(s, sep)[i]| <= |s|
  {
    if s != [] {
      PartsShort(s[1..], sep);
    }
  }

  lemma {:induction false} TrimShort(s: string)
    ensures |TrimBlanksLeft(s)| <= |s| && |TrimBlanksRight(s)| <= |s|
  {
    if s != [] {
      TrimShort(s[1..]);
      TrimShort(s[..|s| - 1]);
    }
  }

  /** For names of at most 255 bytes, bytes that start with a wire name determine that
      wire name and what follows it. */
  lemma SelfDelimiting(n: string, rest: bytes, n': string, rest': bytes)
    requires |n| <= 255 && |n'| <= 255 && WireName(n) + rest == WireName(n') + rest'
    ensures WireName(n) == WireName(n') && rest == rest'
  {
    Reads(n, rest);
    Reads(n', rest');
    var all := WireName(n) + rest;
    assert all[..|WireName(n)|] == WireName(n) && all[|WireName(n)|..] == rest;
    assert all[..|WireName(n')|] == WireName(n') && all[|WireName(n')|..] == rest';
  }

  lemma Reads(n: string, rest: bytes)
    requires |n| <= 255
    ensures NameLength(WireName(n) + rest) == |WireName(n)|
  {
    TrimShort(n);
    TrimShort(TrimBlanksLeft(n));
    PartsShort(Bare(n), '.');
    ReadsLabels(Split(Bare(n), '.'), rest);
    assert WireName(n) + rest == LabelsBytes(Split(Bare(n), '.')) + ([0] + rest);
  }

  // --- Reading a wire name

  /** The labels a reader finds in a wire name, up to its root label. */
  function ReadLabels(bs: bytes): seq<bytes> {
    if bs == [] || bs[0] == 0 || |bs| <= bs[0] then []
    else [bs[1..1 + bs[0]]] + ReadLabels(bs[1 + bs[0]..])
  }

  function NonEmpty(labels: seq<string>): seq<string> {
    if labels == [] then []
    else if labels[0] == [] then NonEmpty(labels[1..])
    else [labels[0]] + NonEmpty(labels[1..])
  }

  function AllOctets(labels: seq<string>): (all: seq<bytes>)
    ensures |all| == |labels| && forall i :: 0 <= i < |labels| ==> all[i] == Octets(labels[i])
  {
    seq(|labels|, i requires 0 <= i < |labels| => Octets(labels[i]))
  }

  lemma ReadsFirst(part: string, rest: bytes)
    requires 0 < |part| < 256
    ensures ReadLabels(LabelBytes(part) + rest) == [Octets(part)] + ReadLabels(rest)
  {
    var bs := LabelBytes(part) + rest;
    assert bs[0] == |part| && bs[1..1 + |part|] == Octets(part) && bs[1 + |part|..] == rest;
  }

  lemma {:induction false} ReadsBack(labels: seq<string>)
    requires forall i :: 0 <= i < |labels| ==> |labels[i]| < 256
    ensures ReadLabels(LabelsBytes(labels) + [0]) == AllOctets(NonEmpty(labels))
  {
    hide ReadLabels, LabelBytes;
    if labels == [] {
      ReadsNothing();
    } else {
      ReadsBack(labels[1..]);
      var rest := LabelsBytes(labels[1..]) + [0];
      assert LabelBytes(labels[0]) + LabelsBytes(labels[1..]) + [0] == LabelBytes(labels[0]) + rest;
      if labels[0] == [] {
        EmptyLabel();
        assert [] + rest == rest;
      } else {
        ReadsFirst(labels[0], rest);
        assert AllOctets(NonEmpty(labels)) == [Octets(labels[0])] + AllOctets(NonEmpty(labels[1..]));
      }
    }
  }

  lemma ReadsNothing()
    ensures ReadLabels([] + [0]) == [] && AllOctets([]) == []
  {
  }

  lemma EmptyLabel()
    ensures LabelBytes([]) == []
  {
  }

  /** A reader gets from the wire form of a name of at most 255 bytes exactly its labels that are
      not empty, in order and in lower case, and the form ends with the root label. */
  lemma WireNameReadsBack(n: string)
    requires |n| <= 255
    ensures ReadLabels(WireName(n)) == AllOctets(NonEmpty(Split(Bare(n), '.')))
    ensures WireName(n)[|WireName(n)| - 1] == 0
  {
    TrimShort(n);
    TrimShort(TrimBlanksLeft(n));
    PartsShort(Bare(n), '.');
    ReadsBack(Split(Bare(n), '.'));
  }

  /** What is trimmed on the left: as many blanks as there are. */
  lemma {:induction false} TrimsLeft(s: string) returns (n: nat)
    ensures n <= |s| && TrimBlanksLeft(s) == s[n..]
    ensures forall i :: 0 <= i < n ==> s[i] == ' ' || s[i] == '\t'
    ensures n < |s| ==> s[n] != ' ' && s[n] != '\t'
  {
    n := 0;
    if s != [] && IsBlank(s[0]) {
      var m := TrimsLeft(s[1..]);
      n := m + 1;
      assert s[1..][m..] == s[n..];
    }
  }

  /** And on the right. */
  lemma {:induction false} TrimsRight(s: string) returns (n: nat)
    ensures n <= |s| && TrimBlanksRight(s) == s[..n]
    ensures forall i :: n <= i < |s| ==> s[i] == ' ' || s[i] == '\t'
    ensures n > 0 ==> s[n - 1] != ' ' && s[n - 1] != '\t'
  {
    n := |s|;
    if s != [] && IsBlank(s[|s| - 1]) {
      n := TrimsRight(s[..|s| - 1]);
      assert s[..|s| - 1][..n] == s[..n];
    }
  }
}
