/** Small building blocks shared by the server and the client pages: optional and
    error-carrying values, JavaScript's `Array.prototype.filter` and `find`,
    decimal strings (`String(n)` and `Number(s)` on non-negative integers),
    and `Math.round`. */
module Basics {

  datatype Option<+T> = None | Some(value: T)

  datatype Result<+T, +E> = Ok(value: T) | Err(error: E)

  /** A JavaScript string value that may be absent: `undefined`/`null` is None.
      It is truthy when present and non-empty. */
  predicate Truthy(s: Option<string>) {
    s.Some? && s.value != ""
  }

  // ---------------------------------------------------------------------------
  // filter / find

  /** `s.filter(p)`: the elements of `s` that satisfy `p`, in their original order. */
  function Filter<T(!new)>(s: seq<T>, p: T -> bool): (r: seq<T>)
    ensures |r| <= |s|
    ensures forall x :: x in r <==> x in s && p(x)
  {
    if s == [] then []
    else if p(s[0]) then [s[0]] + Filter(s[1..], p)
    else Filter(s[1..], p)
  }

  /** Filtering distributes over concatenation: the kept elements of `a` come
      first, then those of `b`, so the relative order of `a + b` is kept. */
  lemma {:induction false} FilterConcat<T(!new)>(a: seq<T>, b: seq<T>, p: T -> bool)
    ensures Filter(a + b, p) == Filter(a, p) + Filter(b, p)
  {
    if a == [] {
      assert a + b == b;
    } else {
      assert (a + b)[1..] == a[1..] + b;
      FilterConcat(a[1..], b, p);
    }
  }

  /** When every element satisfies `p`, filtering changes nothing. */
  lemma {:induction false} FilterAll<T(!new)>(s: seq<T>, p: T -> bool)
    requires forall x :: x in s ==> p(x)
    ensures Filter(s, p) == s
  {
    if s != [] {
      assert s[0] in s;
      FilterAll(s[1..], p);
    }
  }

  /** When no element satisfies `p`, nothing is kept. */
  lemma FilterNone<T(!new)>(s: seq<T>, p: T -> bool)
    requires forall x :: x in s ==> !p(x)
    ensures Filter(s, p) == []
  {
    if Filter(s, p) != [] {
      assert Filter(s, p)[0] in Filter(s, p);
    }
  }

  /** Filtering by `p` and then by a stronger `q` is filtering by `q` alone. */
  lemma {:induction false} FilterNarrow<T(!new)>(s: seq<T>, p: T -> bool, q: T -> bool)
    requires forall x :: x in s && q(x) ==> p(x)
    ensures Filter(Filter(s, p), q) == Filter(s, q)
  {
    if s != [] {
      assert s[0] in s;
      FilterNarrow(s[1..], p, q);
    }
  }

  /** Filtering by `p` and then by `q` is filtering by their conjunction `pq`. */
  lemma {:induction false} FilterAnd<T(!new)>(s: seq<T>, p: T -> bool, q: T -> bool, pq: T -> bool)
    requires forall x :: x in s ==> (pq(x) <==> p(x) && q(x))
    ensures Filter(Filter(s, p), q) == Filter(s, pq)
  {
    if s != [] {
      assert s[0] in s;
      FilterAnd(s[1..], p, q, pq);
    }
  }

  /** The positions in `s` of the elements `Filter` keeps, in order. */
  function KeptPositions<T>(s: seq<T>, p: T -> bool): (idx: seq<nat>)
    ensures forall k :: 0 <= k < |idx| ==> idx[k] < |s|
  {
    if s == [] then []
    else
      var shifted := Shifted(KeptPositions(s[1..], p));
      if p(s[0]) then [0] + shifted else shifted
  }

  /** One step of `KeptPositions`: the positions of the tail, moved by one. */
  function Shifted(rest: seq<nat>): (r: seq<nat>)
    ensures |r| == |rest| && forall k :: 0 <= k < |r| ==> r[k] == rest[k] + 1
  {
    seq(|rest|, k requires 0 <= k < |rest| => rest[k] + 1)
  }

  lemma KeptPositionsStep<T>(s: seq<T>, p: T -> bool)
    requires s != []
    ensures KeptPositions(s, p) == if p(s[0]) then [0] + Shifted(KeptPositions(s[1..], p)) else Shifted(KeptPositions(s[1..], p))
  {
  }

  lemma {:induction false} KeptPositionsLength<T(!new)>(s: seq<T>, p: T -> bool)
    ensures |KeptPositions(s, p)| == |Filter(s, p)|
  {
    if s != [] {
      KeptPositionsLength(s[1..], p);
      KeptPositionsStep(s, p);
    }
  }

  lemma {:induction false} KeptPositionsElements<T(!new)>(s: seq<T>, p: T -> bool)
    ensures |KeptPositions(s, p)| == |Filter(s, p)|
    ensures forall k :: 0 <= k < |KeptPositions(s, p)| ==> Filter(s, p)[k] == s[KeptPositions(s, p)[k]]
  {
    KeptPositionsLength(s, p);
    if s != [] {
      KeptPositionsElements(s[1..], p);
      KeptPositionsStep(s, p);
      var rest, f := KeptPositions(s[1..], p), Filter(s[1..], p);
      var idx := KeptPositions(s, p);
      forall k | 0 <= k < |idx| ensures Filter(s, p)[k] == s[idx[k]] {
        if p(s[0]) {
          if k > 0 {
            assert Filter(s, p)[k] == f[k - 1] == s[1..][rest[k - 1]];
          }
        } else {
          assert Filter(s, p)[k] == f[k] == s[1..][rest[k]];
        }
      }
    }
  }

  lemma {:induction false} KeptPositionsIncreasing<T>(s: seq<T>, p: T -> bool)
    ensures forall k, l :: 0 <= k < l < |KeptPositions(s, p)| ==> KeptPositions(s, p)[k] < KeptPositions(s, p)[l]
  {
    if s != [] {
      KeptPositionsIncreasing(s[1..], p);
      KeptPositionsStep(s, p);
    }
  }

  lemma {:induction false} KeptPositionsComplete<T>(s: seq<T>, p: T -> bool)
    ensures forall i :: 0 <= i < |s| && p(s[i]) ==> i in KeptPositions(s, p)
  {
    if s != [] {
      KeptPositionsComplete(s[1..], p);
      KeptPositionsStep(s, p);
      var rest := KeptPositions(s[1..], p);
      var idx := KeptPositions(s, p);
      forall i | 0 <= i < |s| && p(s[i]) ensures i in idx {
        if i > 0 {
          assert s[1..][i - 1] == s[i];
          var k :| 0 <= k < |rest| && rest[k] == i - 1;
          assert Shifted(rest)[k] == i;
          assert i in Shifted(rest);
        }
      }
    }
  }

  /** `KeptPositions` is strictly increasing, has one position per kept
      element, and holds every position that satisfies `p`: filtering keeps
      the relative order of `s`. */
  lemma KeptPositionsSpec<T(!new)>(s: seq<T>, p: T -> bool)
    ensures var idx := KeptPositions(s, p);
            && |idx| == |Filter(s, p)|
            && (forall k :: 0 <= k < |idx| ==> Filter(s, p)[k] == s[idx[k]])
            && (forall k, l :: 0 <= k < l < |idx| ==> idx[k] < idx[l])
            && (forall i :: 0 <= i < |s| && p(s[i]) ==> i in idx)
  {
    KeptPositionsElements(s, p);
    KeptPositionsIncreasing(s, p);
    KeptPositionsComplete(s, p);
  }

  /** The elements of `s` are listed with strictly increasing `key`. */
  predicate IncreasingBy<T>(s: seq<T>, key: T -> int) {
    forall i, j :: 0 <= i < j < |s| ==> key(s[i]) < key(s[j])
  }

  lemma IncreasingTail<T>(s: seq<T>, key: T -> int)
    requires IncreasingBy(s, key) && s != []
    ensures IncreasingBy(s[1..], key)
    ensures forall x :: x in s[1..] ==> key(s[0]) < key(x)
  {
    forall x | x in s[1..] ensures key(s[0]) < key(x) {
      var k :| 0 <= k < |s[1..]| && s[1..][k] == x;
      assert s[k + 1] == x;
    }
  }

  lemma IncreasingCons<T>(x: T, r: seq<T>, key: T -> int)
    requires IncreasingBy(r, key)
    requires forall y :: y in r ==> key(x) < key(y)
    ensures IncreasingBy([x] + r, key)
  {
    var s := [x] + r;
    forall i, j | 0 <= i < j < |s| ensures key(s[i]) < key(s[j]) {
      assert s[j] == r[j - 1];
      if i == 0 {
        assert r[j - 1] in r;
      } else {
        assert s[i] == r[i - 1];
      }
    }
  }

  /** A strictly increasing key tells positions apart. */
  lemma IncreasingKeyInjective<T>(s: seq<T>, key: T -> int, i: nat, j: nat)
    requires IncreasingBy(s, key) && i < |s| && j < |s|
    ensures key(s[i]) == key(s[j]) ==> i == j
  {
    if i < j {
      assert key(s[i]) < key(s[j]);
    } else if j < i {
      assert key(s[j]) < key(s[i]);
    }
  }

  /** Filtering keeps a strictly increasing key strictly increasing. */
  lemma {:induction false} FilterOrdered<T(!new)>(s: seq<T>, p: T -> bool, key: T -> int)
    requires IncreasingBy(s, key)
    ensures IncreasingBy(Filter(s, p), key)
  {
    if s != [] {
      IncreasingTail(s, key);
      FilterOrdered(s[1..], p, key);
      if p(s[0]) {
        IncreasingCons(s[0], Filter(s[1..], p), key);
      }
    }
  }

  /** `s.find(p)`: the first element of `s` that satisfies `p`, if any. */
  function Find<T(!new)>(s: seq<T>, p: T -> bool): (r: Option<T>)
    ensures r.None? <==> forall x :: x in s ==> !p(x)
    ensures r.Some? ==> r.value in s && p(r.value)
    ensures r.Some? ==> exists i :: 0 <= i < |s| && s[i] == r.value && forall j :: 0 <= j < i ==> !p(s[j])
  {
    if s == [] then None
    else if p(s[0]) then Some(s[0])
    else
      var r := Find(s[1..], p);
      assert r.Some? ==> exists i :: 0 <= i < |s| && s[i] == r.value && forall j :: 0 <= j < i ==> !p(s[j]) by {
        if r.Some? {
          var i :| 0 <= i < |s[1..]| && s[1..][i] == r.value && forall j :: 0 <= j < i ==> !p(s[1..][j]);
          assert s[i + 1] == r.value;
          forall j | 0 <= j < i + 1 ensures !p(s[j]) {
            if j > 0 { assert s[j] == s[1..][j - 1]; }
          }
        }
      }
      r
  }

  /** Searching `a + b` finds the first match of `a`, or else the first match of `b`. */
  lemma {:induction false} FindConcat<T(!new)>(a: seq<T>, b: seq<T>, p: T -> bool)
    ensures Find(a + b, p) == if Find(a, p).Some? then Find(a, p) else Find(b, p)
  {
    if a == [] {
      assert a + b == b;
    } else {
      assert (a + b)[1..] == a[1..] + b;
      FindConcat(a[1..], b, p);
    }
  }

  /** `s.filter((_, i) => i !== idx)`: `s` without the element at position `idx`. */
  function RemoveAt<T>(s: seq<T>, idx: nat): (r: seq<T>)
    ensures idx < |s| ==> |r| == |s| - 1
    ensures idx < |s| ==> forall k :: 0 <= k < |r| ==> r[k] == if k < idx then s[k] else s[k + 1]
    ensures idx >= |s| ==> r == s
  {
    if idx < |s| then s[..idx] + s[idx + 1..] else s
  }

  // ---------------------------------------------------------------------------
  // Decimal strings

  predicate IsDigit(c: char) {
    '0' <= c <= '9'
  }

  function DigitChar(d: nat): (c: char)
    requires d < 10
    ensures IsDigit(c) && DigitValue(c) == d
  {
    "0123456789"[d]
  }

  /** `String(n)` for a non-negative integer: its decimal digits, no leading zeros. */
  function DecimalString(n: nat): (s: string)
    ensures |s| >= 1
    ensures forall i :: 0 <= i < |s| ==> IsDigit(s[i])
  {
    if n < 10 then [DigitChar(n)] else DecimalString(n / 10) + [DigitChar(n % 10)]
  }

  function DigitValue(c: char): (d: nat)
    requires IsDigit(c)
    ensures d < 10
  {
    c as int - '0' as int
  }

  /** `Number(s)` for a non-empty string of decimal digits. */
  function DecimalValue(s: string): nat
    requires |s| >= 1 && forall i :: 0 <= i < |s| ==> IsDigit(s[i])
  {
    var d := DigitValue(s[|s| - 1]);
    if |s| == 1 then d else 10 * DecimalValue(s[..|s| - 1]) + d
  }

  /** `Number(String(n)) === n`. */
  lemma {:induction false} DecimalRoundTrip(n: nat)
    ensures DecimalValue(DecimalString(n)) == n
  {
    if n >= 10 {
      var s := DecimalString(n);
      assert s[..|s| - 1] == DecimalString(n / 10);
      DecimalRoundTrip(n / 10);
    }
  }

  /** Distinct numbers have distinct decimal strings. */
  lemma DecimalInjective(m: nat, n: nat)
    requires DecimalString(m) == DecimalString(n)
    ensures m == n
  {
    DecimalRoundTrip(m);
    DecimalRoundTrip(n);
  }

  // ---------------------------------------------------------------------------
  // Numbers

  /** `Math.round(x)`: the nearest integer, halves rounded up. */
  function JsRound(x: real): (r: int)
    ensures r as real - 0.5 <= x < r as real + 0.5
  {
    (x + 0.5).Floor
  }

  lemma JsRoundMonotone(x: real, y: real)
    requires x <= y
    ensures JsRound(x) <= JsRound(y)
  {
  }

  /** `Math.min(x, y)` on integers. */
  function Min(x: int, y: int): (r: int)
    ensures r <= x && r <= y && (r == x || r == y)
  {
    if x <= y then x else y
  }
}
