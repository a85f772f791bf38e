/**
 * The candidate alphabet of the name mangler: a 54-symbol charset, optional
 * per-character frequency counters, a `finalized` flag, and the bijective
 * base-54 numbering `getIdentifier` (packages/babel-plugin-minify-mangle-names/src/index.js,
 * lines 250-298).
 */
module Charsets {
  import opened Wrappers

  /** Number of symbols in the alphabet: `chars.length` in the source. */
  const BASE: nat := 54

  /** The letters `a` to `z` (or `A` to `Z` when `first` is `'A'`), in order. */
  function Letters(first: char): (r: seq<char>)
    requires first == 'a' || first == 'A'
  {
    seq(26, i requires 0 <= i < 26 => (first as int + i) as char)
  }

  /** The default alphabet, in source order: a-z, A-Z, `$`, `_`. */
  const CHARSET: seq<char> := Letters('a') + Letters('A') + "$_"

  /** The counters the constructor creates: 0 for each symbol of the default alphabet. */
  function InitialFrequency(): map<char, int>
  {
    map c | c in CHARSET :: 0
  }

  /** The error `getIdentifier` throws before `sort` has run. */
  const NOT_SORTED: string := "Should sort first"

  predicate Distinct(s: seq<char>)
  {
    forall i, j :: 0 <= i < j < |s| ==> s[i] != s[j]
  }

  /** A usable alphabet: 54 pairwise distinct symbols, each found by IndexOf at its own position. */
  predicate Alphabet(chars: seq<char>)
  {
    |chars| == BASE && forall k :: 0 <= k < |chars| ==> IndexOf(chars, chars[k]) == k
  }

  /** `s` is written with symbols of `chars` only. */
  predicate Over(chars: seq<char>, s: string)
  {
    forall k :: 0 <= k < |s| ==> s[k] in chars
  }

  // ---------------------------------------------------------------------------
  // getIdentifier: bijective numbering, least significant digit first
  // ---------------------------------------------------------------------------

  /**
   * The identifier of ordinal `n`: its first symbol is digit `n % 54`, and the
   * remaining symbols, if any, are the identifier of `n / 54 - 1`.
   */
  function Ident(chars: seq<char>, n: nat): (r: string)
    requires |chars| == BASE
    decreases n
  {
    if n < BASE then [chars[n]]
    else [chars[n % BASE]] + Ident(chars, n / BASE - 1)
  }

  /** Position of symbol `c` in the alphabet. */
  function IndexOf(chars: seq<char>, c: char): (i: nat)
    requires c in chars
    ensures i < |chars| && chars[i] == c
    ensures forall k :: 0 <= k < i ==> chars[k] != c
  {
    if chars[0] == c then 0 else 1 + IndexOf(chars[1..], c)
  }

  /** The ordinal denoted by a non-empty string over the alphabet: the inverse of Ident. */
  function Value(chars: seq<char>, s: string): nat
    requires |chars| == BASE && |s| > 0 && Over(chars, s)
  {
    if |s| == 1 then IndexOf(chars, s[0])
    else IndexOf(chars, s[0]) + BASE * (Value(chars, s[1..]) + 1)
  }

  lemma IndexOfAt(chars: seq<char>, k: nat)
    requires Distinct(chars) && k < |chars|
    ensures IndexOf(chars, chars[k]) == k
  {
  }

  /** Fifty-four pairwise distinct symbols make an alphabet, and every alphabet is pairwise distinct. */
  lemma AlphabetDistinct(chars: seq<char>)
    ensures Alphabet(chars) <==> |chars| == BASE && Distinct(chars)
  {
    if |chars| == BASE && Distinct(chars) {
      forall k | 0 <= k < |chars| ensures IndexOf(chars, chars[k]) == k {
        IndexOfAt(chars, k);
      }
    }
  }

  /** Every identifier is a non-empty string over the alphabet. */
  lemma {:induction false} IdentOver(chars: seq<char>, n: nat)
    requires |chars| == BASE
    ensures |Ident(chars, n)| > 0 && Over(chars, Ident(chars, n))
    decreases n
  {
    if n >= BASE {
      IdentOver(chars, n / BASE - 1);
    }
  }

  /** Value undoes Ident: no two ordinals share an identifier. */
  lemma {:induction false} ValueOfIdent(chars: seq<char>, n: nat)
    requires Alphabet(chars)
    ensures IdentOverValue(chars, n)
    decreases n
  {
    IdentOver(chars, n);
    var r := Ident(chars, n);
    if n < BASE {
      IndexOfAt(chars, n);
    } else {
      ValueOfIdent(chars, n / BASE - 1);
      IndexOfAt(chars, n % BASE);
      assert r[1..] == Ident(chars, n / BASE - 1);
    }
  }

  ghost predicate IdentOverValue(chars: seq<char>, n: nat)
    requires |chars| == BASE
  {
    |Ident(chars, n)| > 0 && Over(chars, Ident(chars, n)) && Value(chars, Ident(chars, n)) == n
  }

  /** Ident undoes Value: every non-empty string over the alphabet is some identifier. */
  lemma {:induction false} IdentOfValue(chars: seq<char>, s: string)
    requires Alphabet(chars) && |s| > 0 && Over(chars, s)
    ensures Ident(chars, Value(chars, s)) == s
    decreases |s|
  {
    var d := IndexOf(chars, s[0]);
    if |s| > 1 {
      assert Over(chars, s[1..]);
      IdentOfValue(chars, s[1..]);
      var v := Value(chars, s);
      assert v == d + BASE * (Value(chars, s[1..]) + 1);
      assert v % BASE == d && v / BASE - 1 == Value(chars, s[1..]);
      assert s == [s[0]] + s[1..];
    }
  }

  /** Distinct ordinals give distinct identifiers. */
  lemma IdentInjective(chars: seq<char>, m: nat, n: nat)
    requires Alphabet(chars) && m != n
    ensures Ident(chars, m) != Ident(chars, n)
  {
    ValueOfIdent(chars, m);
    ValueOfIdent(chars, n);
  }

  /** The length of the identifier never decreases as the ordinal grows. */
  lemma {:induction false} IdentLengthMonotone(chars: seq<char>, m: nat, n: nat)
    requires |chars| == BASE && m <= n
    ensures |Ident(chars, m)| <= |Ident(chars, n)|
    decreases n
  {
    if m >= BASE {
      IdentLengthMonotone(chars, m / BASE - 1, n / BASE - 1);
    } else if n >= BASE {
      IdentOver(chars, n / BASE - 1);
    }
  }

  /** One step of the do-while loop: the first digit, then the rest of the identifier. */
  lemma IdentDigit(chars: seq<char>, n: nat)
    requires |chars| == BASE
    ensures n / BASE == 0 ==> Ident(chars, n) == [chars[n % BASE]]
    ensures n / BASE > 0 ==> Ident(chars, n) == [chars[n % BASE]] + Ident(chars, n / BASE - 1)
  {
  }

  /** The first 54 ordinals are the single symbols, in alphabet order. */
  lemma IdentSingle(chars: seq<char>, n: nat)
    requires |chars| == BASE && n < BASE
    ensures Ident(chars, n) == [chars[n]]
  {
  }

  /** With the default alphabet: 0 is "a", 53 is "_", 54 is "aa" and 55 is "ba". */
  lemma IdentExamples()
    ensures Ident(CHARSET, 0) == "a" && Ident(CHARSET, 53) == "_"
    ensures Ident(CHARSET, 54) == "aa" && Ident(CHARSET, 55) == "ba"
  {
    assert Ident(CHARSET, 54) == [CHARSET[0]] + Ident(CHARSET, 0);
    assert Ident(CHARSET, 55) == [CHARSET[1]] + Ident(CHARSET, 0);
  }

  // ---------------------------------------------------------------------------
  // consider: frequency counting
  // ---------------------------------------------------------------------------

  /** One call of the forEach callback: bump the counter of `c` when it has one. */
  function Bump(frequency: map<char, int>, c: char): map<char, int>
  {
    if c in frequency then frequency[c := frequency[c] + 1] else frequency
  }

  /** The counters after counting every character of `str`, first to last. */
  function Counted(frequency: map<char, int>, str: string): map<char, int>
    decreases |str|
  {
    if str == [] then frequency
    else Bump(Counted(frequency, str[..|str| - 1]), str[|str| - 1])
  }

  /**
   * Counting adds to each existing counter the number of occurrences of its
   * character in `str` and creates no counter for other characters.
   */
  lemma {:induction false} CountedOccurrences(frequency: map<char, int>, str: string)
    ensures Counted(frequency, str).Keys == frequency.Keys
    ensures forall c :: c in frequency ==> Counted(frequency, str)[c] == frequency[c] + multiset(str)[c]
    decreases |str|
  {
    if str != [] {
      var init := str[..|str| - 1];
      CountedOccurrences(frequency, init);
      assert str == init + [str[|str| - 1]];
    }
  }

  /** Counting `a` and then `b` is counting `a + b`. */
  lemma {:induction false} CountedAppend(frequency: map<char, int>, a: string, b: string)
    ensures Counted(frequency, a + b) == Counted(Counted(frequency, a), b)
    decreases |b|
  {
    if b == [] {
      assert a + b == a;
    } else {
      var init := b[..|b| - 1];
      assert (a + b)[..|a + b| - 1] == a + init;
      assert (a + b)[|a + b| - 1] == b[|b| - 1];
      CountedAppend(frequency, a, init);
    }
  }

  /** The texts one after the other. */
  function Concat(texts: seq<string>): string
    decreases |texts|
  {
    if texts == [] then "" else Concat(texts[..|texts| - 1]) + texts[|texts| - 1]
  }

  // ---------------------------------------------------------------------------
  // sort: order the alphabet by decreasing frequency
  // ---------------------------------------------------------------------------

  /** A counter value, 0 for characters without a counter. */
  function Freq(frequency: map<char, int>, c: char): int
  {
    if c in frequency then frequency[c] else 0
  }

  predicate NonIncreasing(s: seq<char>, frequency: map<char, int>)
  {
    forall i, j :: 0 <= i < j < |s| ==> Freq(frequency, s[i]) >= Freq(frequency, s[j])
  }

  /** Insert `c` into a sorted sequence, before the first symbol of strictly lower frequency. */
  function Insert(c: char, sorted: seq<char>, frequency: map<char, int>): (r: seq<char>)
    requires NonIncreasing(sorted, frequency)
    ensures multiset(r) == multiset(sorted) + multiset{c}
    ensures NonIncreasing(r, frequency)
    decreases |sorted|
  {
    if sorted == [] || Freq(frequency, c) >= Freq(frequency, sorted[0]) then [c] + sorted
    else
      var rest := Insert(c, sorted[1..], frequency);
      InsertAfterHead(c, sorted, rest, frequency);
      [sorted[0]] + rest
  }

  lemma InsertAfterHead(c: char, sorted: seq<char>, rest: seq<char>, frequency: map<char, int>)
    requires sorted != [] && NonIncreasing(sorted, frequency) && NonIncreasing(rest, frequency)
    requires Freq(frequency, c) < Freq(frequency, sorted[0])
    requires multiset(rest) == multiset(sorted[1..]) + multiset{c}
    ensures multiset([sorted[0]] + rest) == multiset(sorted) + multiset{c}
    ensures NonIncreasing([sorted[0]] + rest, frequency)
  {
    assert sorted == [sorted[0]] + sorted[1..];
    forall k | 0 <= k < |rest| ensures Freq(frequency, sorted[0]) >= Freq(frequency, rest[k]) {
      assert rest[k] in multiset(rest);
      if rest[k] != c {
        assert rest[k] in multiset(sorted[1..]);
        assert rest[k] in sorted[1..];
      }
    }
    var r := [sorted[0]] + rest;
    forall i, j | 0 <= i < j < |r| ensures Freq(frequency, r[i]) >= Freq(frequency, r[j]) {
      if i > 0 {
        assert r[i] == rest[i - 1] && r[j] == rest[j - 1];
      } else {
        assert r[j] == rest[j - 1];
      }
    }
  }

  /**
   * `chars.sort((a, b) => frequency[b] - frequency[a])`: a stable sort by
   * decreasing frequency; the result is a permutation of the input.
   */
  function SortByFrequency(chars: seq<char>, frequency: map<char, int>): (r: seq<char>)
    ensures multiset(r) == multiset(chars)
    ensures NonIncreasing(r, frequency)
    decreases |chars|
  {
    if chars == [] then []
    else
      assert chars == [chars[0]] + chars[1..];
      Insert(chars[0], SortByFrequency(chars[1..], frequency), frequency)
  }

  /** A permutation of a distinct sequence is distinct. */
  lemma {:induction false} PermutationDistinct(a: seq<char>, b: seq<char>)
    requires multiset(a) == multiset(b) && Distinct(b)
    ensures Distinct(a) && |a| == |b|
  {
    assert |a| == |multiset(a)| == |multiset(b)| == |b|;
    forall i, j | 0 <= i < j < |a| ensures a[i] != a[j] {
      if a[i] == a[j] {
        assert a == a[..i] + [a[i]] + a[i + 1..j] + [a[j]] + a[j + 1..];
        assert multiset(a)[a[i]] >= 2;
        DistinctAtMostOnce(b, a[i]);
      }
    }
  }

  lemma {:induction false} DistinctAtMostOnce(s: seq<char>, c: char)
    requires Distinct(s)
    ensures multiset(s)[c] <= 1
    decreases |s|
  {
    if s != [] {
      assert s == [s[0]] + s[1..];
      DistinctAtMostOnce(s[1..], c);
      if s[0] == c {
        assert c !in s[1..];
      }
    }
  }

  /** The position of an alphabet symbol in the default alphabet, computed from its code. */
  function DefaultIndex(c: char): int
  {
    if 'a' <= c <= 'z' then c as int - 'a' as int
    else if 'A' <= c <= 'Z' then 26 + (c as int - 'A' as int)
    else if c == '$' then 52
    else 53
  }

  lemma {:induction false} CharsetAlphabet()
    ensures Alphabet(CHARSET)
  {
    assert |CHARSET| == BASE;
    forall i | 0 <= i < BASE ensures DefaultIndex(CHARSET[i]) == i {
      if i < 26 {
        assert CHARSET[i] == Letters('a')[i];
      } else if i < 52 {
        assert CHARSET[i] == Letters('A')[i - 26];
      } else {
        assert CHARSET[i] == "$_"[i - 52];
      }
    }
  }

  /** The default alphabet spelled out, as the source writes it. */
  lemma CharsetSpelledOut()
    ensures CHARSET == "abcdefghijklmnopqrstuvwxyz" + "ABCDEFGHIJKLMNOPQRSTUVWXYZ$_"
  {
  }

  // ---------------------------------------------------------------------------
  // The Charset object
  // ---------------------------------------------------------------------------

  class Charset {
    /** Frequency optimisation on: set when the source text is over 70000 characters. */
    const shouldConsider: bool
    ghost const alphabet: seq<char>
    var chars: seq<char>
    var frequency: map<char, int>
    var finalized: bool

    /**
     * `chars` is always a permutation of `alphabet`, the default alphabet the
     * constructor starts from (54 distinct symbols), and the counters are
     * exactly those of its symbols.
     */
    ghost predicate Valid()
      reads this
    {
      Alphabet(alphabet) && multiset(chars) == multiset(alphabet) && |chars| == BASE
      && frequency.Keys == (set c | c in chars)
    }

    constructor (shouldConsider: bool)
      ensures Valid() && alphabet == CHARSET
      ensures this.shouldConsider == shouldConsider && chars == CHARSET && !finalized
      ensures frequency == InitialFrequency()
    {
      this.shouldConsider := shouldConsider;
      CharsetAlphabet();
      alphabet := CHARSET;
      chars := CHARSET;
      var f: map<char, int> := map[];
      for i := 0 to |CHARSET|
        invariant f.Keys == (set c | c in CHARSET[..i])
        invariant forall c :: c in f ==> f[c] == 0
      {
        assert CHARSET[..i + 1] == CHARSET[..i] + [CHARSET[i]];
        f := f[CHARSET[i] := 0];
      }
      assert CHARSET[..|CHARSET|] == CHARSET;
      assert f == InitialFrequency();
      frequency := f;
      finalized := false;
    }

    /** The current alphabet has 54 distinct symbols. */
    lemma CharsAlphabet()
      requires Valid()
      ensures Alphabet(chars)
    {
      PermutationDistinct(chars, alphabet);
    }

    /** Count the alphabet characters of `str`, when frequency optimisation is on. */
    method Consider(str: string)
      requires Valid()
      modifies this
      ensures Valid()
      ensures chars == old(chars) && finalized == old(finalized)
      ensures frequency == if shouldConsider then Counted(old(frequency), str) else old(frequency)
    {
      if !shouldConsider {
        return;
      }
      var k := 0;
      while k < |str|
        invariant 0 <= k <= |str|
        invariant frequency == Counted(old(frequency), str[..k])
        invariant chars == old(chars) && finalized == old(finalized)
      {
        assert str[..k + 1][..k] == str[..k];
        var c := str[k];
        if c in frequency {
          frequency := frequency[c := frequency[c] + 1];
        }
        k := k + 1;
      }
      assert str[..k] == str;
      CountedOccurrences(old(frequency), str);
    }

    /** Finalise the alphabet: by decreasing frequency when optimisation is on, as is otherwise. */
    method Sort()
      requires Valid()
      modifies this
      ensures Valid() && finalized
      ensures frequency == old(frequency)
      ensures chars == if shouldConsider then SortByFrequency(old(chars), frequency) else old(chars)
    {
      if shouldConsider {
        var sorted := SortByFrequency(chars, frequency);
        PermutationDistinct(sorted, alphabet);
        assert forall c :: c in sorted <==> c in multiset(sorted);
        assert forall c :: c in chars <==> c in multiset(chars);
        chars := sorted;
      }
      finalized := true;
    }

    /** The identifier of ordinal `num`; an error before `sort` has run. */
    method GetIdentifier(num: nat) returns (r: Result<string>)
      requires Valid()
      ensures |chars| == BASE
      ensures r == if finalized then Success(Ident(chars, num)) else Failure(NOT_SORTED)
    {
      if !finalized {
        return Failure(NOT_SORTED);
      }
      assert |chars| == BASE;
      var ret := "";
      var n: nat := num + 1;
      // first pass of the do-while loop
      n := n - 1;
      IdentDigit(chars, n);
      ret := ret + [chars[n % |chars|]];
      n := n / |chars|;
      while n > 0
        invariant n > 0 ==> ret + Ident(chars, n - 1) == Ident(chars, num)
        invariant n == 0 ==> ret == Ident(chars, num)
        decreases n
      {
        n := n - 1;
        IdentDigit(chars, n);
        ghost var before := ret;
        ret := ret + [chars[n % |chars|]];
        if n / |chars| > 0 {
          assert before + Ident(chars, n) == ret + Ident(chars, n / |chars| - 1);
        }
        n := n / |chars|;
      }
      return Success(ret);
    }
  }
}
