/** The OTP sequence validator: the per-frame digit stream produced from the
    gesture video is reduced to the distinct digits ordered by the index of
    their last occurrence, restricted to the digits of the expected OTP, and
    compared with the expected OTP for exact equality.

    The stream holds ints; the source keys its dictionary by `str(val)` and
    tests `str(val) in expected`, where `expected` is the list of the
    characters of the OTP string. `str(v)` is a single character exactly when
    `0 <= v <= 9`; any other int prints as two or more characters and can
    never equal a one-character element of `expected`. */
module OtpValidation {

  predicate Distinct<T(==)>(s: seq<T>) {
    forall i, j :: 0 <= i < j < |s| ==> s[i] != s[j]
  }

  /** The character `str(v)` for a one-digit value. */
  function DigitChar(v: int): (c: char)
    requires 0 <= v <= 9
    ensures '0' <= c <= '9'
  {
    (48 + v) as char
  }

  /** The value of a digit character (the inverse of DigitChar). */
  function DigitValue(c: char): (v: int)
    requires '0' <= c <= '9'
    ensures 0 <= v <= 9 && DigitChar(v) == c
  {
    c as int - 48
  }

  /** `str(v) in expected`: the value prints as one of the expected characters. */
  predicate InExpected(v: int, expected: seq<char>) {
    0 <= v <= 9 && DigitChar(v) in expected
  }

  /** `k` is the index of the last occurrence of `v` in `s`. */
  predicate IsLastIndex(s: seq<int>, v: int, k: nat) {
    k < |s| && s[k] == v && forall j :: k < j < |s| ==> s[j] != v
  }

  /** The dictionary `{str(val): idx for idx, val in enumerate(s)}`: later
      indices overwrite earlier ones, so each value maps to its last index. */
  function LastOccurrence(s: seq<int>): (m: map<int, nat>)
    ensures forall v :: v in m <==> v in s
    ensures forall v :: v in m ==> IsLastIndex(s, v, m[v])
  {
    if s == [] then map[] else LastOccurrence(s[..|s| - 1])[s[|s| - 1] := |s| - 1]
  }

  /** The distinct values of the stream, each kept at its last occurrence. */
  function Reduce(s: seq<int>): (r: seq<int>)
    ensures forall v :: v in r <==> v in s
    ensures Distinct(r)
    ensures |r| <= |s|
  {
    if s == [] then []
    else if s[0] in s[1..] then Reduce(s[1..])
    else [s[0]] + Reduce(s[1..])
  }

  /** `r` lists keys of `m` in strictly increasing order of their values. */
  predicate SortedBy(r: seq<int>, m: map<int, nat>) {
    (forall i :: 0 <= i < |r| ==> r[i] in m) &&
    (forall i, j :: 0 <= i < j < |r| ==> m[r[i]] < m[r[j]])
  }

  /** The list comprehension `[val for val, _ in sorted_values if val in expected_otp]`. */
  function Keep(r: seq<int>, expected: seq<char>): (k: seq<int>)
    ensures forall i :: 0 <= i < |k| ==> InExpected(k[i], expected)
    ensures |k| <= |r|
  {
    if r == [] then []
    else if InExpected(r[0], expected) then [r[0]] + Keep(r[1..], expected)
    else Keep(r[1..], expected)
  }

  /** The kept values as the one-character strings the source compares. */
  function Chars(k: seq<int>): (c: seq<char>)
    requires forall i :: 0 <= i < |k| ==> 0 <= k[i] <= 9
    ensures |c| == |k|
    ensures forall i :: 0 <= i < |k| ==> c[i] == DigitChar(k[i])
  {
    if k == [] then [] else [DigitChar(k[0])] + Chars(k[1..])
  }

  /** The candidate OTP built from the processed stream: every character
      is a digit of the expected OTP, and there are no more of them than
      frames in the stream. */
  function Candidate(processed: seq<int>, expected: seq<char>): (c: seq<char>)
    ensures forall i :: 0 <= i < |c| ==> c[i] in expected
    ensures |c| <= |processed|
  {
    var k := Keep(Reduce(processed), expected);
    assert forall i :: 0 <= i < |k| ==> InExpected(k[i], expected);
    Chars(k)
  }

  /** `is_valid_otp(otp_processed, expected_otp)`. An accepted OTP consists
      of digits and is no longer than the stream. */
  function IsValidOtp(processed: seq<int>, expected: seq<char>): (valid: bool)
    ensures valid ==> forall i :: 0 <= i < |expected| ==> '0' <= expected[i] <= '9'
    ensures valid ==> |expected| <= |processed|
  {
    var c := Chars(Keep(Reduce(processed), expected));
    assert forall i :: 0 <= i < |c| ==> '0' <= c[i] <= '9';
    expected == Candidate(processed, expected)
  }

  // ---------------------------------------------------------------------
  // The reduction is the source's "dictionary of last indices, sorted by index".

  lemma {:induction false} LastOccurrenceOfTail(s: seq<int>, v: int)
    requires |s| > 0 && v in s[1..]
    ensures v in LastOccurrence(s) && v in LastOccurrence(s[1..])
    ensures LastOccurrence(s)[v] == LastOccurrence(s[1..])[v] + 1
  {
    var t := s[1..];
    var m, m' := LastOccurrence(s), LastOccurrence(t);
    assert v in t;
    assert v in m' && IsLastIndex(t, v, m'[v]);
    var k := m'[v] + 1;
    assert IsLastIndex(s, v, k) by {
      forall j | k < j < |s| ensures s[j] != v {
        assert s[j] == t[j - 1];
      }
    }
    assert v in s;
    LastIndexUnique(s, v, m[v], k);
  }

  lemma LastIndexUnique(s: seq<int>, v: int, k1: nat, k2: nat)
    requires IsLastIndex(s, v, k1) && IsLastIndex(s, v, k2)
    ensures k1 == k2
  {
  }

  lemma SortedShift(r: seq<int>, m: map<int, nat>, m': map<int, nat>)
    requires SortedBy(r, m')
    requires forall v :: v in r ==> v in m && v in m' && m[v] == m'[v] + 1
    ensures SortedBy(r, m)
  {
    forall i | 0 <= i < |r| ensures r[i] in m && m[r[i]] == m'[r[i]] + 1 {
      var v := r[i];
      assert v in r;
      assert v in m && v in m' && m[v] == m'[v] + 1;
    }
  }

  lemma SortedCons(x: int, r: seq<int>, m: map<int, nat>)
    requires SortedBy(r, m) && x in m
    requires forall v :: v in r ==> m[x] < m[v]
    ensures SortedBy([x] + r, m)
  {
    var r' := [x] + r;
    forall i, j | 0 <= i < j < |r'| ensures m[r'[i]] < m[r'[j]] {
      assert r'[j] == r[j - 1];
      if i > 0 { assert r'[i] == r[i - 1]; }
    }
  }

  /** The reduced stream is sorted by the last-occurrence dictionary. */
  lemma {:induction false} ReduceSortedByLastOccurrence(s: seq<int>)
    ensures SortedBy(Reduce(s), LastOccurrence(s))
  {
    if s != [] {
      var t := s[1..];
      ReduceSortedByLastOccurrence(t);
      var rt := Reduce(t);
      var m, mt := LastOccurrence(s), LastOccurrence(t);
      forall v | v in rt ensures v in m && v in mt && m[v] == mt[v] + 1 {
        LastOccurrenceOfTail(s, v);
      }
      SortedShift(rt, m, mt);
      if s[0] !in t {
        assert m[s[0]] == 0 by {
          assert IsLastIndex(s, s[0], m[s[0]]);
        }
        SortedCons(s[0], rt, m);
      }
    }
  }

  /** Two duplicate-free lists of the same values, both strictly sorted by
      the same key, are equal. */
  lemma {:induction false} SortedUnique(r1: seq<int>, r2: seq<int>, m: map<int, nat>)
    requires Distinct(r1) && Distinct(r2)
    requires forall v :: v in r1 <==> v in r2
    requires SortedBy(r1, m) && SortedBy(r2, m)
    ensures r1 == r2
    decreases |r1| + |r2|, if r1 == [] then 1 else 0
  {
    if r1 == [] {
      if r2 != [] {
        SortedUnique(r2, r1, m);
      }
    } else {
      var x1 := r1[0];
      assert x1 in r1;
      assert x1 in r2;
      var x2 := r2[0];
      assert x2 in r2;
      assert x2 in r1;
      assert x1 == x2;
      var t1, t2 := r1[1..], r2[1..];
      forall v ensures v in t1 <==> v in t2 {
        if v in t1 {
          var i :| 0 <= i < |t1| && t1[i] == v;
          assert v != r1[0] && v in r2;
          var j :| 0 <= j < |r2| && r2[j] == v;
          assert j > 0 && t2[j - 1] == v;
        }
        if v in t2 {
          var j :| 0 <= j < |t2| && t2[j] == v;
          assert v != r2[0] && v in r1;
          var i :| 0 <= i < |r1| && r1[i] == v;
          assert i > 0 && t1[i - 1] == v;
        }
      }
      SortedUnique(t1, t2, m);
      assert r1 == [r1[0]] + t1 && r2 == [r2[0]] + t2;
    }
  }

  /** Whatever order `sorted(last_occurrence.items(), key=...)` yields for the
      keys of the last-occurrence dictionary, it is the reduced stream. */
  lemma ReduceIsSortedKeys(s: seq<int>, keys: seq<int>)
    requires Distinct(keys)
    requires forall v :: v in keys <==> v in LastOccurrence(s)
    requires SortedBy(keys, LastOccurrence(s))
    ensures keys == Reduce(s)
  {
    ReduceSortedByLastOccurrence(s);
    SortedUnique(keys, Reduce(s), LastOccurrence(s));
  }

  // ---------------------------------------------------------------------
  // Properties of the validator.

  lemma {:induction false} KeepDistinct(r: seq<int>, expected: seq<char>)
    requires Distinct(r)
    ensures Distinct(Keep(r, expected))
  {
    if r != [] {
      KeepDistinct(r[1..], expected);
      assert Distinct(r[1..]);
      if InExpected(r[0], expected) {
        assert r[0] !in r[1..];
        KeepMembers(r[1..], expected);
        assert r[0] !in Keep(r[1..], expected);
      }
    }
  }

  /** The candidate never repeats a character. */
  lemma CandidateDistinct(processed: seq<int>, expected: seq<char>)
    ensures Distinct(Candidate(processed, expected))
  {
    var k := Keep(Reduce(processed), expected);
    KeepDistinct(Reduce(processed), expected);
    var c := Chars(k);
    forall i, j | 0 <= i < j < |c| ensures c[i] != c[j] {
      assert DigitValue(c[i]) == k[i] && DigitValue(c[j]) == k[j];
    }
  }

  /** An expected OTP that repeats a character is never matched. */
  lemma RepeatedExpectedFails(processed: seq<int>, expected: seq<char>)
    requires !Distinct(expected)
    ensures !IsValidOtp(processed, expected)
  {
    CandidateDistinct(processed, expected);
  }

  /** An empty stream matches only the empty OTP; a 4-character OTP never. */
  lemma EmptyStream(expected: seq<char>)
    ensures IsValidOtp([], expected) <==> expected == []
    ensures |expected| == 4 ==> !IsValidOtp([], expected)
  {
  }

  /** The filter keeps exactly the expected values of `r`. */
  lemma {:induction false} KeepMembers(r: seq<int>, expected: seq<char>)
    ensures forall v :: v in Keep(r, expected) <==> v in r && InExpected(v, expected)
  {
    if r != [] {
      KeepMembers(r[1..], expected);
      assert r == [r[0]] + r[1..];
    }
  }

  lemma {:induction false} KeepConcat(a: seq<int>, b: seq<int>, expected: seq<char>)
    ensures Keep(a + b, expected) == Keep(a, expected) + Keep(b, expected)
  {
    if a == [] {
      assert a + b == b;
    } else {
      var c := a + b;
      assert c[0] == a[0] && c[1..] == a[1..] + b;
      KeepConcat(a[1..], b, expected);
      var rest := Keep(a[1..], expected);
      if InExpected(a[0], expected) {
        assert Keep(a, expected) == [a[0]] + rest;
        assert Keep(c, expected) == [a[0]] + (rest + Keep(b, expected));
        assert [a[0]] + (rest + Keep(b, expected)) == ([a[0]] + rest) + Keep(b, expected);
      } else {
        assert Keep(a, expected) == rest;
        assert Keep(c, expected) == rest + Keep(b, expected);
      }
    }
  }

  /** Filtering to the expected digits commutes with the reduction. */
  lemma {:induction false} KeepReduceCommute(s: seq<int>, expected: seq<char>)
    ensures Keep(Reduce(s), expected) == Reduce(Keep(s, expected))
  {
    if s != [] {
      var t := s[1..];
      KeepReduceCommute(t, expected);
      if InExpected(s[0], expected) {
        assert Keep(s, expected) == [s[0]] + Keep(t, expected);
        assert Keep(s, expected)[1..] == Keep(t, expected);
        KeepMembers(t, expected);
        assert (s[0] in Keep(t, expected)) <==> s[0] in t;
      }
    }
  }

  /** The verdict depends on the stream only through its expected digits. */
  lemma ValidityDependsOnKept(s: seq<int>, s': seq<int>, expected: seq<char>)
    requires Keep(s, expected) == Keep(s', expected)
    ensures IsValidOtp(s, expected) == IsValidOtp(s', expected)
  {
    KeepReduceCommute(s, expected);
    KeepReduceCommute(s', expected);
    assert Candidate(s, expected) == Candidate(s', expected);
  }

  lemma KeepInsert(p: seq<int>, v: int, q: seq<int>, expected: seq<char>)
    requires !InExpected(v, expected)
    ensures Keep(p + [v] + q, expected) == Keep(p + q, expected)
  {
    assert Keep([v], expected) == Keep([], expected) by {
      assert [v][1..] == [];
    }
    KeepConcat(p + [v], q, expected);
    KeepConcat(p, [v], expected);
    KeepConcat(p, q, expected);
  }

  /** Inserting a value that is not an expected digit, anywhere in the
      stream, never changes the verdict. */
  lemma InsertUnexpected(s: seq<int>, i: nat, v: int, expected: seq<char>)
    requires i <= |s|
    requires !InExpected(v, expected)
    ensures IsValidOtp(s[..i] + [v] + s[i..], expected) == IsValidOtp(s, expected)
  {
    var p, q := s[..i], s[i..];
    assert p + q == s;
    KeepInsert(p, v, q, expected);
    ValidityDependsOnKept(p + [v] + q, s, expected);
  }

  /** Appending a value that is not an expected digit never changes the verdict. */
  lemma AppendUnexpected(s: seq<int>, v: int, expected: seq<char>)
    requires !InExpected(v, expected)
    ensures IsValidOtp(s + [v], expected) == IsValidOtp(s, expected)
  {
    InsertUnexpected(s, |s|, v, expected);
    assert s[..|s|] + [v] + s[|s|..] == s + [v];
  }

  /** `k` copies of `x`. */
  function Repeat(x: int, k: nat): (r: seq<int>)
    ensures |r| == k && forall i :: 0 <= i < k ==> r[i] == x
  {
    if k == 0 then [] else [x] + Repeat(x, k - 1)
  }

  /** Every element of the stream repeated `k` times in place. */
  function Stutter(s: seq<int>, k: nat): (r: seq<int>)
    ensures |r| == |s| * k
  {
    if s == [] then [] else Repeat(s[0], k) + Stutter(s[1..], k)
  }

  lemma {:induction false} StutterMembers(s: seq<int>, k: nat, v: int)
    requires k >= 1
    ensures v in Stutter(s, k) <==> v in s
  {
    if s != [] {
      StutterMembers(s[1..], k, v);
      assert Repeat(s[0], k)[0] == s[0];
      assert Stutter(s, k) == Repeat(s[0], k) + Stutter(s[1..], k);
    }
  }

  lemma {:induction false} ReduceRepeatPrefix(x: int, k: nat, u: seq<int>)
    requires k >= 1
    ensures Reduce(Repeat(x, k) + u) == Reduce([x] + u)
  {
    if k > 1 {
      var w := Repeat(x, k - 1) + u;
      assert Repeat(x, k) + u == [x] + w;
      assert ([x] + w)[1..] == w;
      assert w[0] == x;
      ReduceRepeatPrefix(x, k - 1, u);
    }
  }

  /** Holding every digit for `k` frames instead of one does not change the
      reduced stream. */
  lemma {:induction false} ReduceStutter(s: seq<int>, k: nat)
    requires k >= 1
    ensures Reduce(Stutter(s, k)) == Reduce(s)
  {
    if s != [] {
      var u := Stutter(s[1..], k);
      ReduceStutter(s[1..], k);
      ReduceRepeatPrefix(s[0], k, u);
      StutterMembers(s[1..], k, s[0]);
      assert ([s[0]] + u)[1..] == u;
    }
  }

  /** Hence the verdict is invariant under uniform frame duplication. */
  lemma StutterInvariant(s: seq<int>, k: nat, expected: seq<char>)
    requires k >= 1
    ensures IsValidOtp(Stutter(s, k), expected) == IsValidOtp(s, expected)
  {
    ReduceStutter(s, k);
  }

  /** A duplicate-free stream is its own reduction. */
  lemma {:induction false} ReduceDistinct(s: seq<int>)
    requires Distinct(s)
    ensures Reduce(s) == s
  {
    if s != [] {
      assert Distinct(s[1..]);
      assert s[0] !in s[1..];
      ReduceDistinct(s[1..]);
    }
  }

  /** The digit values of an all-digit string. */
  function Values(e: seq<char>): (s: seq<int>)
    requires forall i :: 0 <= i < |e| ==> '0' <= e[i] <= '9'
    ensures |s| == |e| && forall i :: 0 <= i < |e| ==> s[i] == DigitValue(e[i])
  {
    if e == [] then [] else [DigitValue(e[0])] + Values(e[1..])
  }

  /** Showing the digits of a duplicate-free OTP once each, in order, passes. */
  lemma ShowingOtpInOrderPasses(expected: seq<char>)
    requires forall i :: 0 <= i < |expected| ==> '0' <= expected[i] <= '9'
    requires Distinct(expected)
    ensures IsValidOtp(Values(expected), expected)
  {
    var s := Values(expected);
    forall i, j | 0 <= i < j < |s| ensures s[i] != s[j] {
      assert DigitChar(s[i]) == expected[i] && DigitChar(s[j]) == expected[j];
    }
    ReduceDistinct(s);
    KeepAll(s, expected);
    assert Chars(s) == expected;
  }

  lemma {:induction false} KeepAll(s: seq<int>, expected: seq<char>)
    requires forall i :: 0 <= i < |s| ==> InExpected(s[i], expected)
    ensures Keep(s, expected) == s
  {
    if s != [] {
      KeepAll(s[1..], expected);
    }
  }

  /** `[1, 2, 1, 2, 3]` against "123": the early 1 and 2 are superseded by
      their re-showings, leaving 1, 2, 3 in order. */
  lemma ExampleReshownInOrder()
    ensures IsValidOtp([1, 2, 1, 2, 3], "123")
  {
    ReduceReshownTwice();
    KeepInOrder();
  }

  lemma ReduceReshownTwice()
    ensures Reduce([1, 2, 1, 2, 3]) == [1, 2, 3]
  {
    var s: seq<int> := [1, 2, 1, 2, 3];
    assert s[1..] == [2, 1, 2, 3];
    assert Reduce(s) == Reduce([2, 1, 2, 3]);
    var t: seq<int> := [2, 1, 2, 3];
    assert t[1..] == [1, 2, 3];
    assert Reduce(t) == Reduce([1, 2, 3]);
    ReduceDistinct([1, 2, 3]);
  }

  lemma KeepInOrder()
    ensures Keep([1, 2, 3], "123") == [1, 2, 3] && Chars([1, 2, 3]) == "123"
  {
  }

  /** `[3, 2, 1]` against "123": the digits are there but in the wrong order. */
  lemma ExampleReversed()
    ensures !IsValidOtp([3, 2, 1], "123")
  {
  }

  lemma ReduceReshown()
    ensures Reduce([1, 2, 3, 1]) == [2, 3, 1]
  {
  }

  /** A late re-showing of 1 moves it behind 2 and 3 ... */
  lemma ExampleReshowBreaksOrder()
    ensures !IsValidOtp([1, 2, 3, 1], "123")
  {
    ReduceReshown();
  }

  lemma KeepReshown()
    ensures Keep([2, 3, 1], "231") == [2, 3, 1] && Chars([2, 3, 1]) == "231"
  {
  }

  /** ... so that the stream now spells "231". */
  lemma ExampleReshowMovesDigit()
    ensures IsValidOtp([1, 2, 3, 1], "231")
  {
    ReduceReshown();
    KeepReshown();
  }

  lemma ReduceNoisy()
    ensures Reduce([1, 7, 2, 3]) == [1, 7, 2, 3]
  {
  }

  lemma KeepNoisy()
    ensures Keep([1, 7, 2, 3], "123") == [1, 2, 3]
  {
  }

  /** A noise digit outside the OTP is ignored. */
  lemma ExampleNoiseIgnored()
    ensures IsValidOtp([1, 7, 2, 3], "123")
  {
    ReduceNoisy();
    KeepNoisy();
  }
}
