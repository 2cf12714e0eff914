/** The few string operations of the Go standard library that the modelled code uses,
    on ASCII strings, with the laws the models need. */
module Text {

  function LowerChar(c: char): char {
    if 'A' <= c <= 'Z' then (c as int + 32) as char else c
  }

  /** strings.ToLower on ASCII. */
  function Lower(s: string): (r: string)
    ensures |r| == |s| && forall i :: 0 <= i < |s| ==> r[i] == LowerChar(s[i])
  {
    seq(|s|, i requires 0 <= i < |s| => LowerChar(s[i]))
  }

  predicate IsSpace(c: char) {
    c == ' ' || c == '\t' || c == '\n' || c == '\r' || c as int == 11 || c as int == 12
  }

  function TrimLeft(s: string): string {
    if s != [] && IsSpace(s[0]) then TrimLeft(s[1..]) else s
  }

  function TrimRight(s: string): string {
    if s != [] && IsSpace(s[|s| - 1]) then TrimRight(s[..|s| - 1]) else s
  }

  /** strings.TrimSpace on ASCII. */
  function TrimSpace(s: string): string {
    TrimRight(TrimLeft(s))
  }

  /** Two characters fold alike just when they are the same or the two cases of one letter. */
  lemma FoldsCases(c: char, d: char)
    ensures LowerChar(c) == LowerChar(d) <==>
              || c == d
              || ('A' <= c <= 'Z' && d as int == c as int + 32)
              || ('A' <= d <= 'Z' && c as int == d as int + 32)
    ensures !('A' <= LowerChar(c) <= 'Z')
  {
  }

  /** Trimming on the left takes the white space there is, and nothing else. */
  lemma {:induction false} TrimsLeft(s: string) returns (n: nat)
    ensures n <= |s| && TrimLeft(s) == s[n..]
    ensures forall i :: 0 <= i < n ==> s[i] in {' ', '\t', '\n', '\r', 11 as char, 12 as char}
    ensures n < |s| ==> s[n] !in {' ', '\t', '\n', '\r', 11 as char, 12 as char}
  {
    n := 0;
    if s != [] && IsSpace(s[0]) {
      var m := TrimsLeft(s[1..]);
      n := m + 1;
      assert s[1..][m..] == s[n..];
    }
  }

  /** And on the right. */
  lemma {:induction false} TrimsRight(s: string) returns (n: nat)
    ensures n <= |s| && TrimRight(s) == s[..n]
    ensures forall i :: n <= i < |s| ==> s[i] in {' ', '\t', '\n', '\r', 11 as char, 12 as char}
    ensures n > 0 ==> s[n - 1] !in {' ', '\t', '\n', '\r', 11 as char, 12 as char}
  {
    n := |s|;
    if s != [] && IsSpace(s[|s| - 1]) {
      n := TrimsRight(s[..|s| - 1]);
      assert s[..|s| - 1][..n] == s[..n];
    }
  }

  predicate AllSpace(s: string) {
    forall i :: 0 <= i < |s| ==> s[i] in {' ', '\t', '\n', '\r', 11 as char, 12 as char}
  }

  /** White space around a text does not matter. */
  lemma {:induction false} TrimIgnoresOuter(before: string, s: string, after: string)
    requires AllSpace(before) && AllSpace(after)
    ensures TrimSpace(before + s + after) == TrimSpace(s)
  {
    assert before + s + after == before + (s + after);
    TrimLeftSkips(before, s + after);
    TrimLeftKeeps(s, after);
  }

  lemma {:induction false} TrimLeftSkips(before: string, s: string)
    requires AllSpace(before)
    ensures TrimLeft(before + s) == TrimLeft(s)
  {
    if before == [] {
      assert before + s == s;
    } else {
      assert (before + s)[1..] == before[1..] + s;
      TrimLeftSkips(before[1..], s);
    }
  }

  lemma {:induction false} TrimLeftKeeps(s: string, after: string)
    requires AllSpace(after)
    ensures TrimRight(TrimLeft(s + after)) == TrimRight(TrimLeft(s))
  {
    if s == [] {
      assert s + after == after;
      TrimLeftSkips(after, []);
      assert after + [] == after;
    } else if IsSpace(s[0]) {
      assert (s + after)[1..] == s[1..] + after;
      TrimLeftKeeps(s[1..], after);
    } else {
      TrimRightSkips(s, after);
    }
  }

  lemma {:induction false} TrimRightSkips(s: string, after: string)
    requires AllSpace(after)
    ensures TrimRight(s + after) == TrimRight(s)
  {
    if after == [] {
      assert s + after == s;
    } else {
      assert (s + after)[..|s + after| - 1] == s + after[..|after| - 1];
      TrimRightSkips(s, after[..|after| - 1]);
    }
  }

  predicate HasSuffix(s: string, suffix: string) {
    |suffix| <= |s| && s[|s| - |suffix|..] == suffix
  }

  function TrimSuffix(s: string, suffix: string): string {
    if HasSuffix(s, suffix) then s[..|s| - |suffix|] else s
  }

  // --- Decimal numbers

  predicate IsDigit(c: char) {
    '0' <= c <= '9'
  }

  function DigitChar(d: nat): char
    requires d < 10
  {
    ('0' as int + d) as char
  }

  /** strconv.Itoa and strconv.FormatUint for base ten. */
  function Decimal(n: nat): (s: string)
    ensures s != [] && forall i :: 0 <= i < |s| ==> IsDigit(s[i])
    ensures n > 0 ==> s[0] != '0'
  {
    if n < 10 then [DigitChar(n)] else Decimal(n / 10) + [DigitChar(n % 10)]
  }

  /** The value of a string of digits. */
  function Value(s: string): nat
    requires forall i :: 0 <= i < |s| ==> IsDigit(s[i])
  {
    if s == [] then 0
    else assert IsDigit(s[|s| - 1]); 10 * Value(s[..|s| - 1]) + (s[|s| - 1] as int - '0' as int)
  }

  lemma {:induction false} ValueOfDecimal(n: nat)
    ensures Value(Decimal(n)) == n
  {
    var s := Decimal(n);
    if n < 10 {
      assert s[..0] == [];
    } else {
      ValueOfDecimal(n / 10);
      assert s[..|s| - 1] == Decimal(n / 10);
    }
  }

  /** Without leading zeros a number has one decimal form. */
  lemma {:induction false} DecimalOfValue(s: string)
    requires s != [] && (forall i :: 0 <= i < |s| ==> IsDigit(s[i])) && (|s| > 1 ==> s[0] != '0')
    ensures Decimal(Value(s)) == s
  {
    var n := |s| - 1;
    var front := s[..n];
    if n == 0 {
      assert front == [];
    } else {
      DecimalOfValue(front);
      PositiveValue(front);
      assert s == front + [s[n]];
    }
  }

  lemma {:induction false} PositiveValue(s: string)
    requires s != [] && (forall i :: 0 <= i < |s| ==> IsDigit(s[i])) && s[0] != '0'
    ensures Value(s) > 0
  {
    if |s| > 1 {
      PositiveValue(s[..|s| - 1]);
    }
  }

  // --- Splitting and joining on one separator

  /** strings.Split for a one-character separator. */
  function Split(s: string, sep: char): (parts: seq<string>)
    ensures parts != []
  {
    if s == [] then [[]]
    else
      var rest := Split(s[1..], sep);
      if s[0] == sep then [[]] + rest else [[s[0]] + rest[0]] + rest[1..]
  }

  /** strings.Join for a one-character separator. */
  function Join(parts: seq<string>, sep: char): string {
    if parts == [] then []
    else if |parts| == 1 then parts[0]
    else parts[0] + [sep] + Join(parts[1..], sep)
  }

  lemma JoinExtends(c: char, parts: seq<string>, sep: char)
    requires parts != []
    ensures Join([[c] + parts[0]] + parts[1..], sep) == [c] + Join(parts, sep)
  {
    assert ([[c] + parts[0]] + parts[1..])[1..] == parts[1..];
  }

  lemma JoinAfterEmpty(parts: seq<string>, sep: char)
    requires parts != []
    ensures Join([[]] + parts, sep) == [sep] + Join(parts, sep)
  {
    assert ([[]] + parts)[1..] == parts;
  }

  lemma JoinNothing(sep: char)
    ensures Join([[]], sep) == []
  {
  }

  lemma {:induction false} JoinOfSplit(s: string, sep: char)
    ensures Join(Split(s, sep), sep) == s
    ensures forall i :: 0 <= i < |Split(s, sep)| ==> sep !in Split(s, sep)[i]
  {
    hide Join;
    PartsWithout(s, sep);
    if s == [] {
      JoinNothing(sep);
    } else {
      JoinOfSplit(s[1..], sep);
      if s[0] == sep {
        JoinAfterEmpty(Split(s[1..], sep), sep);
      } else {
        JoinExtends(s[0], Split(s[1..], sep), sep);
      }
    }
  }

  lemma {:induction false} PartsWithout(s: string, sep: char)
    ensures forall i :: 0 <= i < |Split(s, sep)| ==> sep !in Split(s, sep)[i]
  {
    if s != [] {
      PartsWithout(s[1..], sep);
    }
  }

  lemma {:induction false} SplitAtFirst(a: string, b: string, sep: char)
    requires sep !in a
    ensures Split(a + [sep] + b, sep) == [a] + Split(b, sep)
  {
    var s := a + [sep] + b;
    if a == [] {
      assert s[1..] == b;
    } else {
      assert s[1..] == a[1..] + [sep] + b;
      SplitAtFirst(a[1..], b, sep);
      assert s[0] == a[0] && a == [a[0]] + a[1..];
    }
  }

  lemma {:induction false} SplitWithout(a: string, sep: char)
    requires sep !in a
    ensures Split(a, sep) == [a]
  {
    if a != [] {
      SplitWithout(a[1..], sep);
      assert a == [a[0]] + a[1..];
    }
  }

  lemma {:induction false} SplitOfJoin(parts: seq<string>, sep: char)
    requires parts != [] && forall i :: 0 <= i < |parts| ==> sep !in parts[i]
    ensures Split(Join(parts, sep), sep) == parts
  {
    if |parts| == 1 {
      SplitWithout(parts[0], sep);
    } else {
      SplitOfJoin(parts[1..], sep);
      SplitAtFirst(parts[0], Join(parts[1..], sep), sep);
    }
  }

  lemma {:induction false} JoinConcat(a: seq<string>, b: seq<string>, sep: char)
    requires a != [] && b != []
    ensures Join(a + b, sep) == Join(a, sep) + [sep] + Join(b, sep)
  {
    if |a| == 1 {
      assert (a + b)[1..] == b;
    } else {
      assert (a + b)[1..] == a[1..] + b;
      JoinConcat(a[1..], b, sep);
    }
  }

  lemma SplitConcat(a: string, b: string, sep: char)
    ensures Split(a + [sep] + b, sep) == Split(a, sep) + Split(b, sep)
  {
    var parts := Split(a, sep) + Split(b, sep);
    JoinOfSplit(a, sep);
    JoinOfSplit(b, sep);
    JoinConcat(Split(a, sep), Split(b, sep), sep);
    SplitOfJoin(parts, sep);
  }

  lemma LabelsOfSuffix(d: string, p: string, sep: char)
    requires HasSuffix(d, [sep] + p)
    ensures |Split(p, sep)| <= |Split(d, sep)| && Split(d, sep)[|Split(d, sep)| - |Split(p, sep)|..] == Split(p, sep)
  {
    hide Split;
    var front := d[..|d| - |p| - 1];
    assert d == front + [sep] + p;
    SplitConcat(front, p, sep);
  }

  lemma SuffixOfLabels(d: string, p: string, sep: char)
    requires |Split(p, sep)| <= |Split(d, sep)| && Split(d, sep)[|Split(d, sep)| - |Split(p, sep)|..] == Split(p, sep)
    ensures d == p || HasSuffix(d, [sep] + p)
  {
    hide Split, Join;
    var dl, pl := Split(d, sep), Split(p, sep);
    var front := dl[..|dl| - |pl|];
    assert dl == front + pl;
    JoinOfSplit(d, sep);
    JoinOfSplit(p, sep);
    if front == [] {
      assert dl == pl;
    } else {
      JoinConcat(front, pl, sep);
      assert d == Join(front, sep) + ([sep] + p);
    }
  }

  /** A string ends with separator-plus-p, or is p, exactly when its labels end with
      the labels of p. */
  lemma SuffixByLabels(d: string, p: string, sep: char)
    ensures (d == p || HasSuffix(d, [sep] + p))
            <==> (|Split(p, sep)| <= |Split(d, sep)|
                  && Split(d, sep)[|Split(d, sep)| - |Split(p, sep)|..] == Split(p, sep))
  {
    hide Split, Join;
    if HasSuffix(d, [sep] + p) {
      LabelsOfSuffix(d, p, sep);
    } else if |Split(p, sep)| <= |Split(d, sep)| && Split(d, sep)[|Split(d, sep)| - |Split(p, sep)|..] == Split(p, sep) {
      SuffixOfLabels(d, p, sep);
    }
  }
}
