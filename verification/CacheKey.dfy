/** The cache key codec (name, type and DO bit in one string) and the subtree match
    that InvalidatePattern applies to keys. */
module CacheKey {
  import opened Text

  const MAX_KEY_NAME_LEN := 128

  /** The part of a key that stands for the name: the name in lower case, or the
      decimal form of its keyed hash when it is long. */
  function NamePart(name: string, hash: string -> nat): string {
    if |name| > MAX_KEY_NAME_LEN then Decimal(hash(Lower(name))) else Lower(name)
  }

  function KeyOf(name: string, qtype: nat, doBit: bool, hash: string -> nat): string {
    NamePart(name, hash) + "|" + Decimal(qtype) + "|" + (if doBit then "1" else "0")
  }

  /** MakeKey: the builder loop.  Names longer than its 256-byte buffer are outside
      what it accepts. */
  method MakeKey(name: string, qtype: nat, doBit: bool, hash: string -> nat) returns (b: string)
    requires |name| <= 256
    ensures b == KeyOf(name, qtype, doBit, hash)
  {
    var lower := "";
    for i := 0 to |name|
      invariant lower == Lower(name)[..i]
    {
      lower := lower + [LowerChar(name[i])];
    }
    assert lower == Lower(name);
    if |name| > MAX_KEY_NAME_LEN {
      b := Decimal(hash(lower));
    } else {
      b := lower;
    }
    b := b + "|" + Decimal(qtype) + "|" + (if doBit then "1" else "0");
  }

  /** strings.IndexByte, with the length standing for "not found". */
  function IndexOf(s: string, c: char): (i: nat)
    ensures i <= |s| && (forall j :: 0 <= j < i ==> s[j] != c) && (i < |s| ==> s[i] == c)
  {
    if s == [] || s[0] == c then 0 else 1 + IndexOf(s[1..], c)
  }

  /** ExtractQueryInfo: ("", 0) when the key is malformed. */
  function ExtractQueryInfo(key: string): (string, nat) {
    var first := IndexOf(key, '|');
    if first == |key| then ("", 0)
    else
      var rest := key[first + 1..];
      var typeStr := rest[..IndexOf(rest, '|')];
      if typeStr == [] || (exists i :: 0 <= i < |typeStr| && !IsDigit(typeStr[i])) then ("", 0)
      else if Value(typeStr) > 65535 then ("", 0)
      else (key[..first], Value(typeStr))
  }

  /** A bar-free tail after a bar is determined by the whole string. */
  lemma TailAfterBar(a: string, d: string, a': string, d': string)
    requires '|' !in d && '|' !in d'
    requires a + "|" + d == a' + "|" + d'
    ensures a == a' && d == d'
  {
    var s := a + "|" + d;
    assert s[|s| - |d| - 1] == '|' && forall j :: |s| - |d| <= j < |s| ==> s[j] == d[j - |s| + |d|];
    assert s[|s| - |d'| - 1] == '|' && forall j :: |s| - |d'| <= j < |s| ==> s[j] == d'[j - |s| + |d'|];
    assert |d| == |d'|;
    assert s[..|a|] == a && s[..|a'|] == a';
    assert s[|a| + 1..] == d && s[|a'| + 1..] == d';
  }

  /** Short names get the same key exactly when they agree up to ASCII case, type and
      DO bit, even if they contain the separator. */
  lemma KeyInjective(n: string, q: nat, d: bool, n': string, q': nat, d': bool, hash: string -> nat)
    requires |n| <= 128 && |n'| <= 128
    ensures KeyOf(n, q, d, hash) == KeyOf(n', q', d', hash) <==> Lower(n) == Lower(n') && q == q' && d == d'
  {
    if KeyOf(n, q, d, hash) == KeyOf(n', q', d', hash) {
      TailAfterBar(Lower(n) + "|" + Decimal(q), if d then "1" else "0",
                   Lower(n') + "|" + Decimal(q'), if d' then "1" else "0");
      TailAfterBar(Lower(n), Decimal(q), Lower(n'), Decimal(q'));
      ValueOfDecimal(q);
      ValueOfDecimal(q');
    }
  }

  /** ExtractQueryInfo undoes MakeKey on a short name, up to case, exactly when the name
      does not contain the separator. */
  lemma ExtractAfterMake(n: string, q: nat, d: bool, hash: string -> nat)
    requires |n| <= 128 && q <= 65535
    ensures ExtractQueryInfo(KeyOf(n, q, d, hash)) == (Lower(n), q) <==> '|' !in n
  {
    var key := KeyOf(n, q, d, hash);
    var tail := Decimal(q) + "|" + (if d then "1" else "0");
    assert key == Lower(n) + "|" + tail;
    if '|' in n {
      var i :| 0 <= i < |n| && n[i] == '|';
      assert key[i] == '|';
      assert IndexOf(key, '|') <= i;
    } else {
      assert key[..|n|] == Lower(n) && key[|n| + 1..] == tail;
      assert forall i :: 0 <= i < |n| ==> key[i] == LowerChar(n[i]) && key[i] != '|';
      assert key[|n|] == '|' && IndexOf(key, '|') == |n|;
      assert tail[..|Decimal(q)|] == Decimal(q);
      assert forall i :: 0 <= i < |Decimal(q)| ==> tail[i] == Decimal(q)[i] && tail[i] != '|';
      assert tail[|Decimal(q)|] == '|' && IndexOf(tail, '|') == |Decimal(q)|;
      ValueOfDecimal(q);
    }
  }

  /** A name that contains the separator comes back cut short. */
  lemma SeparatorCutsName(hash: string -> nat)
    ensures ExtractQueryInfo(KeyOf("a|b", 1, false, hash)) != (Lower("a|b"), 1)
  {
    assert "a|b"[1] == '|';
    ExtractAfterMake("a|b", 1, false, hash);
  }

  // --- Subtree invalidation

  /** normalizeInvalidatePattern, also applied to the name of a key. */
  function Normalize(name: string): string {
    TrimSuffix(Lower(TrimSpace(name)), ".")
  }

  /** invalidationPatternMatches, on an already normalised pattern. */
  predicate PatternMatches(domain: string, pattern: string) {
    var d := Normalize(domain);
    d == pattern || HasSuffix(d, "." + pattern)
  }

  /** Whether InvalidatePattern with this argument removes the given key.  A pattern
      that normalises to the empty string removes nothing. */
  predicate Invalidates(pattern: string, key: string) {
    Normalize(pattern) != "" && PatternMatches(ExtractQueryInfo(key).0, Normalize(pattern))
  }

  function Labels(name: string): seq<string> {
    Split(name, '.')
  }

  /** Being at or below `zone` in the name tree. */
  predicate AtOrBelow(name: seq<string>, zone: seq<string>) {
    |zone| <= |name| && name[|name| - |zone|..] == zone
  }

  /** A short name without the separator, and a type of 16 bits. */
  predicate Keyable(n: string, q: nat) {
    |n| <= MAX_KEY_NAME_LEN && q <= 65535 && '|' !in n
  }

  /** The name lies at or below the pattern, which is not the root. */
  predicate Covers(pattern: string, n: string) {
    Normalize(pattern) != "" && AtOrBelow(Labels(Normalize(n)), Labels(Normalize(pattern)))
  }

  /** A key made from a short, separator-free name matches a pattern exactly when the
      name lies at or below it, label by label. */
  lemma InvalidatesSubtree(n: string, q: nat, d: bool, hash: string -> nat, pattern: string)
    requires Keyable(n, q)
    ensures Invalidates(pattern, KeyOf(n, q, d, hash)) <==> Covers(pattern, n)
  {
    hide Normalize, Split, KeyOf, ExtractQueryInfo;
    ExtractAfterMake(n, q, d, hash);
    NormalizeIgnoresCase(n);
    SuffixByLabels(Normalize(n), Normalize(pattern), '.');
  }

  /** Names that differ only in case, in outer white space or in one final dot are matched
      alike. */
  lemma NormalizesAlike(before: string, n: string, after: string)
    requires AllSpace(before) && AllSpace(after)
    ensures Normalize(before + n + after) == Normalize(n) && Normalize(Lower(n)) == Normalize(n)
    ensures n != "" && !AllSpace([n[0]]) && n[|n| - 1] != '.' && !AllSpace([n[|n| - 1]]) ==> Normalize(n + ".") == Normalize(n)
  {
    TrimIgnoresOuter(before, n, after);
    NormalizeIgnoresCase(n);
    if n != "" && !AllSpace([n[0]]) && n[|n| - 1] != '.' && !AllSpace([n[|n| - 1]]) {
      FinalDot(n);
    }
  }

  lemma FinalDot(n: string)
    requires n != "" && !AllSpace([n[0]]) && n[|n| - 1] != '.' && !AllSpace([n[|n| - 1]])
    ensures Normalize(n + ".") == Normalize(n)
  {
    assert [n[0]][0] == n[0] && [n[|n| - 1]][0] == n[|n| - 1];
    assert TrimSpace(n) == n && TrimSpace(n + ".") == n + ".";
    assert Lower(n + ".") == Lower(n) + ".";
    assert Lower(n)[|n| - 1] == LowerChar(n[|n| - 1]) && !HasSuffix(Lower(n), ".");
    assert (Lower(n) + ".")[|n|..] == "." && (Lower(n) + ".")[..|n|] == Lower(n);
  }

  /** A normalised name has no upper-case letter and, if it is not blank around, no outer white
      space. */
  lemma NormalizedIsLower(n: string, i: nat)
    requires i < |Normalize(n)|
    ensures !('A' <= Normalize(n)[i] <= 'Z')
  {
  }

  lemma NormalizeIgnoresCase(n: string)
    ensures Normalize(Lower(n)) == Normalize(n)
  {
    LowerTrimLeft(n);
    LowerTrimRight(TrimLeft(n));
    assert Lower(Lower(TrimSpace(n))) == Lower(TrimSpace(n));
  }

  lemma {:induction false} LowerTrimLeft(s: string)
    ensures TrimLeft(Lower(s)) == Lower(TrimLeft(s))
  {
    if s != [] {
      assert Lower(s)[1..] == Lower(s[1..]);
      LowerTrimLeft(s[1..]);
    }
  }

  lemma {:induction false} LowerTrimRight(s: string)
    ensures TrimRight(Lower(s)) == Lower(TrimRight(s))
  {
    if s != [] {
      assert Lower(s)[..|s| - 1] == Lower(s[..|s| - 1]);
      LowerTrimRight(s[..|s| - 1]);
    }
  }
}
