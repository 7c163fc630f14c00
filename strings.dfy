/**
 * String helpers shared by the models: prefixes and substrings, Python's str.replace,
 * ASCII case mapping, decimal rendering of integers, splitting and joining on one
 * character, the code-point order both Python and JavaScript sort strings by, and a
 * stable insertion sort by a string key.
 */
module Strings {
  import opened Wrappers


  predicate StartsWith(s: string, p: string) {
    |p| <= |s| && s[..|p|] == p
  }

  predicate EndsWith(s: string, p: string) {
    |p| <= |s| && s[|s| - |p|..] == p
  }

  /** t occurs in s at position i. */
  predicate OccursAt(s: string, t: string, i: nat) {
    i + |t| <= |s| && forall k {:trigger t[k]} | 0 <= k < |t| :: s[i + k] == t[k]
  }

  lemma OccursAtSlice(s: string, t: string, i: nat)
    requires i + |t| <= |s|
    ensures OccursAt(s, t, i) <==> s[i..i + |t|] == t
  {
    if OccursAt(s, t, i) {
      assert s[i..i + |t|] == t;
    }
  }

  /** Python's `t in s` for strings, JavaScript's s.includes(t). */
  predicate Contains(s: string, t: string) {
    exists i: nat | i <= |s| :: OccursAt(s, t, i)
  }

  lemma StartsWithConcat(p: string, q: string)
    ensures StartsWith(p + q, p)
  {
    assert (p + q)[..|p|] == p;
  }

  lemma EndsWithConcat(p: string, q: string)
    ensures EndsWith(p + q, q)
  {
    assert (p + q)[|p + q| - |q|..] == q;
  }

  /** The character c does not occur in s. */
  predicate NoChar(s: string, c: char) {
    c !in s
  }

  // ---------------------------------------------------------------------------
  // Python's str.replace(pat, rep): every non-overlapping occurrence of pat,
  // scanning from the left, is replaced; an empty pat inserts rep around every
  // character.

  function ReplaceAll(s: string, pat: string, rep: string): string
    decreases |s|
  {
    if pat == [] then
      (if s == [] then rep else rep + [s[0]] + ReplaceAll(s[1..], pat, rep))
    else if |s| < |pat| then s
    else if s[..|pat|] == pat then rep + ReplaceAll(s[|pat|..], pat, rep)
    else [s[0]] + ReplaceAll(s[1..], pat, rep)
  }

  /** With no occurrence of a non-empty `pat`, replacing changes nothing. */
  lemma {:induction false} ReplaceAllNoOccurrence(s: string, pat: string, rep: string)
    requires pat != []
    requires forall i: nat | i <= |s| :: !OccursAt(s, pat, i)
    ensures ReplaceAll(s, pat, rep) == s
  {
    if |s| >= |pat| {
      assert !OccursAt(s, pat, 0);
      forall i: nat | i <= |s[1..]| ensures !OccursAt(s[1..], pat, i) {
        assert !OccursAt(s, pat, i + 1);
        if i + |pat| <= |s[1..]| {
          assert s[1..][i..i + |pat|] == s[i + 1..i + 1 + |pat|];
        }
      }
      ReplaceAllNoOccurrence(s[1..], pat, rep);
    }
  }

  /** The first occurrence of t in s at or after i (a left-to-right substring search). */
  function FindFrom(s: string, t: string, i: nat): (r: Option<nat>)
    ensures r.Some? ==> i <= r.value && OccursAt(s, t, r.value)
    ensures r.Some? ==> forall j | i <= j < r.value :: !OccursAt(s, t, j)
    ensures r.None? ==> forall j | i <= j :: !OccursAt(s, t, j)
    decreases |s| - i
  {
    if i > |s| then None
    else if OccursAt(s, t, i) then Some(i)
    else FindFrom(s, t, i + 1)
  }

  /**
   * A non-empty `pat` that occurs exactly at the end of s and nowhere before is
   * replaced once, at the end.
   */
  lemma {:induction false} ReplaceAllAtEnd(pre: string, pat: string, rep: string)
    requires pat != []
    requires forall i: nat | i < |pre| :: !OccursAt(pre + pat, pat, i)
    ensures ReplaceAll(pre + pat, pat, rep) == pre + rep
  {
    var s := pre + pat;
    if pre == [] {
      assert s[..|pat|] == pat;
      assert s[|pat|..] == [];
    } else {
      assert !OccursAt(s, pat, 0);
      assert s[1..] == pre[1..] + pat;
      forall i: nat | i < |pre[1..]| ensures !OccursAt(pre[1..] + pat, pat, i) {
        assert !OccursAt(s, pat, i + 1);
        assert (pre[1..] + pat)[i..i + |pat|] == s[i + 1..i + 1 + |pat|];
      }
      ReplaceAllAtEnd(pre[1..], pat, rep);
      assert [s[0]] + (pre[1..] + rep) == pre + rep;
    }
  }

  // ---------------------------------------------------------------------------
  // Character maps

  /** Replace every occurrence of the character a by b (a global one-character regex replace). */
  function MapChar(s: string, a: char, b: char): (r: string)
    ensures |r| == |s|
    ensures forall i | 0 <= i < |s| :: r[i] == (if s[i] == a then b else s[i])
  {
    seq(|s|, i requires 0 <= i < |s| => if s[i] == a then b else s[i])
  }

  predicate IsAsciiUpper(c: char) { 'A' <= c <= 'Z' }
  predicate IsAsciiLower(c: char) { 'a' <= c <= 'z' }
  predicate IsAsciiLetter(c: char) { IsAsciiUpper(c) || IsAsciiLower(c) }
  predicate IsDigit(c: char) { '0' <= c <= '9' }
  predicate IsAsciiAlnum(c: char) { IsAsciiLetter(c) || IsDigit(c) }

  function LowerChar(c: char): (r: char)
    ensures !IsAsciiUpper(r)
    ensures !IsAsciiLetter(c) ==> r == c
  {
    if IsAsciiUpper(c) then (c as int + 32) as char else c
  }

  /** JavaScript's `length` of a text: its UTF-16 code units, two for a character beyond U+FFFF. */
  function Utf16Length(s: string): (n: nat)
    ensures n >= |s|
    ensures (forall i | 0 <= i < |s| :: s[i] as int < 0x1_0000) ==> n == |s|
    decreases |s|
  {
    if s == [] then 0 else (if s[0] as int >= 0x1_0000 then 2 else 1) + Utf16Length(s[1..])
  }

  function UpperChar(c: char): (r: char)
    ensures !IsAsciiLower(r)
    ensures !IsAsciiLetter(c) ==> r == c
  {
    if IsAsciiLower(c) then (c as int - 32) as char else c
  }

  /** toLowerCase()/lower() restricted to the ASCII letters. */
  function Lower(s: string): (r: string)
    ensures |r| == |s|
    ensures forall i | 0 <= i < |s| :: r[i] == LowerChar(s[i])
  {
    seq(|s|, i requires 0 <= i < |s| => LowerChar(s[i]))
  }

  lemma LowerIdempotent(s: string)
    ensures Lower(Lower(s)) == Lower(s)
  {
  }

  // ---------------------------------------------------------------------------
  // Decimal numerals

  function DigitChar(d: nat): (c: char)
    requires d < 10
    ensures IsDigit(c)
  {
    ('0' as int + d) as char
  }

  /** str(n) for a non-negative integer: the shortest decimal numeral. */
  function NatToString(n: nat): (r: string)
    ensures |r| >= 1
    ensures forall i | 0 <= i < |r| :: IsDigit(r[i])
    ensures n >= 10 ==> r[0] != '0'
    decreases n
  {
    if n < 10 then [DigitChar(n)] else NatToString(n / 10) + [DigitChar(n % 10)]
  }

  /** str(i) / '%d' % i for any integer. */
  function IntToString(i: int): (r: string)
    ensures |r| >= 1
    ensures (i < 0) == (r[0] == '-')
  {
    if i < 0 then "-" + NatToString(-i) else NatToString(i)
  }

  predicate AllDigits(s: string) {
    forall i | 0 <= i < |s| :: IsDigit(s[i])
  }

  /** int(s) for a string of decimal digits (leading zeros allowed). */
  function DigitsValue(s: string): nat
    requires AllDigits(s)
  {
    if s == [] then 0 else DigitsValue(s[..|s| - 1]) * 10 + (s[|s| - 1] as int - '0' as int)
  }

  /** Reading back a rendered numeral gives the number. */
  lemma {:induction false} DigitsValueOfNatToString(n: nat)
    ensures AllDigits(NatToString(n)) && DigitsValue(NatToString(n)) == n
    decreases n
  {
    var r := NatToString(n);
    if n >= 10 {
      DigitsValueOfNatToString(n / 10);
      assert r[..|r| - 1] == NatToString(n / 10);
    } else {
      assert r[..|r| - 1] == [];
    }
  }

  /** Distinct numbers render as distinct numerals. */
  lemma NatToStringInjective(m: nat, n: nat)
    requires NatToString(m) == NatToString(n)
    ensures m == n
  {
    DigitsValueOfNatToString(m);
    DigitsValueOfNatToString(n);
  }

  // ---------------------------------------------------------------------------
  // Splitting on one character and joining

  /** s.split(c) in Python and JavaScript for a one-character separator. */
  function Split(s: string, c: char): (r: seq<string>)
    ensures |r| >= 1
    ensures forall k | 0 <= k < |r| :: NoChar(r[k], c)
    decreases |s|
  {
    if s == [] then [""]
    else
      var rest := Split(s[1..], c);
      if s[0] == c then [""] + rest
      else [[s[0]] + rest[0]] + rest[1..]
  }

  /** sep.join(parts) / parts.join(sep). */
  function Join(parts: seq<string>, sep: string): string
  {
    if parts == [] then ""
    else if |parts| == 1 then parts[0]
    else parts[0] + sep + Join(parts[1..], sep)
  }

  function CountChar(s: string, c: char): nat
  {
    if s == [] then 0 else (if s[0] == c then 1 else 0) + CountChar(s[1..], c)
  }

  /** Splitting and joining again with the same separator gives back the string. */
  lemma {:induction false} JoinSplit(s: string, c: char)
    ensures Join(Split(s, c), [c]) == s
    decreases |s|
  {
    if s != [] {
      var rest := Split(s[1..], c);
      JoinSplit(s[1..], c);
      if s[0] == c {
        assert Split(s, c) == [""] + rest;
        assert ([""] + rest)[1..] == rest;
      } else {
        var r := Split(s, c);
        assert r == [[s[0]] + rest[0]] + rest[1..];
        if |rest| == 1 {
          assert Join(rest, [c]) == rest[0];
        } else {
          assert Join(rest, [c]) == rest[0] + [c] + Join(rest[1..], [c]);
          assert r[1..] == rest[1..];
        }
      }
    }
  }

  /** There is one more piece than there are separators. */
  lemma {:induction false} SplitCount(s: string, c: char)
    ensures |Split(s, c)| == CountChar(s, c) + 1
    decreases |s|
  {
    if s != [] {
      SplitCount(s[1..], c);
    }
  }

  /** Mapping each piece and joining keeps the number of pieces when the map adds no separator. */
  lemma {:induction false} SplitJoinMapped(parts: seq<string>, c: char)
    requires |parts| >= 1
    requires forall k | 0 <= k < |parts| :: NoChar(parts[k], c)
    ensures Split(Join(parts, [c]), c) == parts
    decreases |parts|
  {
    if |parts| == 1 {
      SplitNoChar(parts[0], c);
    } else {
      SplitJoinMapped(parts[1..], c);
      SplitConcat(parts[0], Join(parts[1..], [c]), c);
    }
  }

  lemma {:induction false} SplitNoChar(s: string, c: char)
    requires NoChar(s, c)
    ensures Split(s, c) == [s]
    decreases |s|
  {
    if s != [] {
      SplitNoChar(s[1..], c);
      assert [s[0]] + s[1..] == s;
    }
  }

  lemma {:induction false} SplitConcat(p: string, q: string, c: char)
    requires NoChar(p, c)
    ensures Split(p + [c] + q, c) == [p] + Split(q, c)
    decreases |p|
  {
    if p == [] {
      assert p + [c] + q == [c] + q;
      assert ([c] + q)[1..] == q;
    } else {
      assert (p + [c] + q)[1..] == p[1..] + [c] + q;
      SplitConcat(p[1..], q, c);
      assert [p[0]] + p[1..] == p;
    }
  }

  // ---------------------------------------------------------------------------
  // Code-point order of strings (Python's str comparison; JavaScript's default
  // sort for strings of the Basic Multilingual Plane)

  predicate Less(a: string, b: string)
    decreases |a|
  {
    if a == [] then b != []
    else if b == [] then false
    else if a[0] != b[0] then a[0] < b[0]
    else Less(a[1..], b[1..])
  }

  predicate LessEq(a: string, b: string) {
    a == b || Less(a, b)
  }

  lemma {:induction false} LessIrreflexive(a: string)
    ensures !Less(a, a)
    decreases |a|
  {
    if a != [] {
      LessIrreflexive(a[1..]);
    }
  }

  lemma {:induction false} LessTotal(a: string, b: string)
    ensures Less(a, b) || a == b || Less(b, a)
    decreases |a|
  {
    if a != [] && b != [] && a[0] == b[0] {
      LessTotal(a[1..], b[1..]);
      if a[1..] == b[1..] {
        assert a == [a[0]] + a[1..] && b == [b[0]] + b[1..];
      }
    }
  }

  lemma {:induction false} LessAsymmetric(a: string, b: string)
    requires Less(a, b)
    ensures !Less(b, a)
    decreases |a|
  {
    if a != [] && b != [] && a[0] == b[0] {
      LessAsymmetric(a[1..], b[1..]);
    }
  }

  lemma {:induction false} LessTransitive(a: string, b: string, c: string)
    requires Less(a, b) && Less(b, c)
    ensures Less(a, c)
    decreases |a|
  {
    if a != [] && b != [] && c != [] && a[0] == b[0] && b[0] == c[0] {
      LessTransitive(a[1..], b[1..], c[1..]);
    }
  }

  lemma LessEqTransitive(a: string, b: string, c: string)
    requires LessEq(a, b) && LessEq(b, c)
    ensures LessEq(a, c)
  {
    if a != b && b != c {
      LessTransitive(a, b, c);
    }
  }

  lemma LessEqTotal(a: string, b: string)
    ensures LessEq(a, b) || LessEq(b, a)
  {
    LessTotal(a, b);
  }

  // ---------------------------------------------------------------------------
  // Stable insertion sort by a string key (Python's sorted/list.sort and
  // JavaScript's Array.prototype.sort with a key-based comparison)

  ghost predicate SortedBy<T>(s: seq<T>, key: T -> string) {
    forall i, j | 0 <= i < j < |s| :: LessEq(key(s[i]), key(s[j]))
  }

  function Insert<T>(x: T, s: seq<T>, key: T -> string): (r: seq<T>)
    ensures multiset(r) == multiset(s) + multiset{x}
    ensures |r| == |s| + 1
  {
    if s == [] then [x]
    else if LessEq(key(x), key(s[0])) then [x] + s
    else
      assert s == [s[0]] + s[1..];
      [s[0]] + Insert(x, s[1..], key)
  }

  function SortBy<T>(s: seq<T>, key: T -> string): (r: seq<T>)
    ensures multiset(r) == multiset(s)
    ensures |r| == |s|
  {
    if s == [] then []
    else
      assert s == [s[0]] + s[1..];
      Insert(s[0], SortBy(s[1..], key), key)
  }

  lemma {:induction false} InsertSorted<T>(x: T, s: seq<T>, key: T -> string)
    requires SortedBy(s, key)
    ensures SortedBy(Insert(x, s, key), key)
    decreases |s|
  {
    if s != [] && !LessEq(key(x), key(s[0])) {
      LessEqTotal(key(x), key(s[0]));
      InsertSorted(x, s[1..], key);
      var tail := Insert(x, s[1..], key);
      var r := [s[0]] + tail;
      forall i, j | 0 <= i < j < |r| ensures LessEq(key(r[i]), key(r[j])) {
        if i == 0 {
          assert r[j] in multiset(tail) by { assert r[j] == tail[j - 1]; }
          assert r[j] == x || r[j] in multiset(s[1..]);
          if r[j] != x {
            var k :| 0 <= k < |s[1..]| && s[1..][k] == r[j];
            assert s[0] == s[i] && r[j] == s[k + 1];
          }
        }
      }
    } else if s != [] {
      var r := [x] + s;
      forall i, j | 0 <= i < j < |r| ensures LessEq(key(r[i]), key(r[j])) {
        if i == 0 {
          LessEqTransitive(key(x), key(s[0]), key(s[j - 1]));
        }
      }
    }
  }

  /** The sorted sequence is ordered by the key (its permutation property is SortBy's ensures). */
  lemma {:induction false} SortBySorted<T>(s: seq<T>, key: T -> string)
    ensures SortedBy(SortBy(s, key), key)
    decreases |s|
  {
    if s != [] {
      SortBySorted(s[1..], key);
      InsertSorted(s[0], SortBy(s[1..], key), key);
    }
  }

  function Id(s: string): string { s }

  /** Sorting strings by themselves. */
  function SortStrings(s: seq<string>): (r: seq<string>)
    ensures multiset(r) == multiset(s)
    ensures forall i, j | 0 <= i < j < |r| :: LessEq(r[i], r[j])
  {
    SortBySorted(s, Id);
    SortBy(s, Id)
  }

  /** The keys of a sequence's elements, in order. */
  function Keyed<T>(s: seq<T>, key: T -> string): (r: seq<string>)
    ensures |r| == |s| && forall i | 0 <= i < |s| :: r[i] == key(s[i])
  {
    if s == [] then [] else [key(s[0])] + Keyed(s[1..], key)
  }

  lemma KeyedCons<T>(x: T, s: seq<T>, key: T -> string)
    ensures Keyed([x] + s, key) == [key(x)] + Keyed(s, key)
  {
    assert ([x] + s)[1..] == s;
  }

  /** Inserting by a key and then taking keys is inserting the key among the keys. */
  lemma {:induction false} InsertKeyed<T>(x: T, s: seq<T>, key: T -> string)
    ensures Keyed(Insert(x, s, key), key) == Insert(key(x), Keyed(s, key), Id)
    decreases |s|
  {
    if s == [] {
    } else if LessEq(key(x), key(s[0])) {
      KeyedCons(x, s, key);
    } else {
      InsertKeyed(x, s[1..], key);
      KeyedCons(s[0], Insert(x, s[1..], key), key);
      assert s == [s[0]] + s[1..];
      KeyedCons(s[0], s[1..], key);
    }
  }

  lemma SortByCons(ks: seq<string>)
    requires ks != []
    ensures SortBy(ks, Id) == Insert(ks[0], SortBy(ks[1..], Id), Id)
  {
  }

  /** Sorting by a key and then taking keys is sorting the keys. */
  lemma {:induction false} SortByKeyed<T>(s: seq<T>, key: T -> string)
    ensures Keyed(SortBy(s, key), key) == SortBy(Keyed(s, key), Id)
    decreases |s|
  {
    if s != [] {
      var ks := Keyed(s, key);
      var tail := SortBy(s[1..], key);
      InsertKeyed(s[0], tail, key);
      SortByKeyed(s[1..], key);
      assert ks == [key(s[0])] + Keyed(s[1..], key);
      assert ks[1..] == Keyed(s[1..], key);
      SortByCons(ks);
    }
  }
}
