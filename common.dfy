/** Definitions shared by the three platform backends: bytes, options, the
    events sent to the host, the method-channel values, and sequence helpers
    used to describe how device lists shrink. */
module Common {

  newtype byte = x: int | 0 <= x < 256

  datatype Option<T> = None | Some(value: T)

  /** An unsolicited event delivered to the host application. */
  datatype Notice =
    | UserActive
    | UserInactive
    | FocusChange(title: string, appName: string, windowTitle: string)

  /** A value carried over the method channel. */
  datatype Value =
    | VNull
    | VBool(b: bool)
    | VInt(i: int)
    | VFloat(f: real)
    | VString(s: string)
    | VBytes(bytes: seq<byte>)
    | VMap(m: map<string, Value>)

  /** The arguments of a method call: either a map or something else. */
  datatype Args = NotAMap | ArgMap(entries: map<string, Value>)

  /** The answer to a method call. */
  datatype Response =
    | Success(value: Value)
    | Error(code: string, message: string)
    | NotImplemented

  /** The boolean stored under `key`, if the arguments are a map holding one. */
  function BoolArg(args: Args, key: string): (r: Option<bool>)
    ensures r.Some? <==> args.ArgMap? && key in args.entries && args.entries[key].VBool?
    ensures r.Some? ==> args.entries[key] == VBool(r.value)
  {
    if args.ArgMap? && key in args.entries && args.entries[key].VBool?
    then Some(args.entries[key].b) else None
  }

  /** The integer stored under `key`, if the arguments are a map holding one. */
  function IntArg(args: Args, key: string): (r: Option<int>)
    ensures r.Some? <==> args.ArgMap? && key in args.entries && args.entries[key].VInt?
    ensures r.Some? ==> args.entries[key] == VInt(r.value)
  {
    if args.ArgMap? && key in args.entries && args.entries[key].VInt?
    then Some(args.entries[key].i) else None
  }

  /** The floating value stored under `key`, if the arguments are a map holding one. */
  function FloatArg(args: Args, key: string): (r: Option<real>)
    ensures r.Some? <==> args.ArgMap? && key in args.entries && args.entries[key].VFloat?
    ensures r.Some? ==> args.entries[key] == VFloat(r.value)
  {
    if args.ArgMap? && key in args.entries && args.entries[key].VFloat?
    then Some(args.entries[key].f) else None
  }

  /** A report buffer of `n` zero bytes. */
  function Zeros(n: nat): (r: seq<byte>)
    ensures |r| == n
    ensures forall i :: 0 <= i < n ==> r[i] == 0
  {
    seq(n, _ => 0)
  }

  // ---------------------------------------------------------------------
  // Removing a set of indices from a sequence
  // ---------------------------------------------------------------------

  /** The elements of `s` whose indices are not in `drop`, in their original order. */
  function Without<T>(s: seq<T>, drop: set<nat>): seq<T>
    decreases |s|
  {
    if |s| == 0 then []
    else Without(s[..|s| - 1], drop) + (if |s| - 1 in drop then [] else [s[|s| - 1]])
  }

  /** Every element that survives is an element of `s`, and an index outside
      `drop` keeps its element. */
  lemma {:induction false} WithoutKeeps<T>(s: seq<T>, drop: set<nat>, i: nat)
    requires i < |s| && i !in drop
    ensures s[i] in Without(s, drop)
    decreases |s|
  {
    var n := |s| - 1;
    if i < n {
      WithoutKeeps(s[..n], drop, i);
    }
  }

  lemma {:induction false} WithoutSubset<T>(s: seq<T>, drop: set<nat>)
    ensures forall x :: x in Without(s, drop) ==> x in s
    decreases |s|
  {
    if |s| > 0 {
      WithoutSubset(s[..|s| - 1], drop);
    }
  }

  /** Dropping only indices at or beyond the end changes nothing. */
  lemma {:induction false} WithoutBeyond<T>(s: seq<T>, drop: set<nat>)
    requires forall d :: d in drop ==> d >= |s|
    ensures Without(s, drop) == s
    decreases |s|
  {
    if |s| > 0 {
      var n := |s| - 1;
      WithoutBeyond(s[..n], drop);
      assert s[..n] + [s[n]] == s;
    }
  }

  /** An index at or beyond the end may be added to `drop` without effect. */
  lemma {:induction false} WithoutIgnoresLarge<T>(s: seq<T>, drop: set<nat>, d: nat)
    requires d >= |s|
    ensures Without(s, drop + {d}) == Without(s, drop)
    decreases |s|
  {
    if |s| > 0 {
      WithoutIgnoresLarge(s[..|s| - 1], drop, d);
    }
  }

  /** When every dropped index lies above `i`, the survivors up to `i` are
      untouched. */
  lemma {:induction false} WithoutKeepsPrefix<T>(s: seq<T>, drop: set<nat>, i: nat)
    requires i < |s| && forall d :: d in drop ==> d > i
    ensures |Without(s, drop)| > i
    ensures Without(s, drop)[..i + 1] == s[..i + 1]
    decreases |s|
  {
    var n := |s| - 1;
    if n == i {
      WithoutBeyond(s[..n], drop);
      assert s[..n] + [s[n]] == s;
    } else {
      WithoutKeepsPrefix(s[..n], drop, i);
      var w := Without(s[..n], drop);
      var tail := if n in drop then [] else [s[n]];
      assert (w + tail)[..i + 1] == w[..i + 1];
      assert s[..n][..i + 1] == s[..i + 1];
    }
  }

  /** ... and dropping `i` as well is erasing position `i`. */
  lemma {:induction false} WithoutEraseBelow<T>(s: seq<T>, drop: set<nat>, i: nat)
    requires i < |s| && forall d :: d in drop ==> d > i
    ensures |Without(s, drop)| > i
    ensures Without(s, drop + {i}) == Without(s, drop)[..i] + Without(s, drop)[i + 1..]
    decreases |s|
  {
    WithoutKeepsPrefix(s, drop, i);
    var n := |s| - 1;
    var w := Without(s[..n], drop);
    if n == i {
      WithoutBeyond(s[..n], drop);
      WithoutBeyond(s[..n], drop + {i});
      assert n !in drop && n in drop + {i};
      assert Without(s, drop) == w + [s[n]];
      assert Without(s, drop + {i}) == w;
      assert (w + [s[n]])[..i] == w;
    } else {
      WithoutEraseBelow(s[..n], drop, i);
      var tail := if n in drop then [] else [s[n]];
      assert n in drop + {i} <==> n in drop;
      calc {
        Without(s, drop + {i});
        Without(s[..n], drop + {i}) + tail;
        (w[..i] + w[i + 1..]) + tail;
        { assert (w[..i] + w[i + 1..]) + tail == w[..i] + (w[i + 1..] + tail); }
        w[..i] + (w[i + 1..] + tail);
        { assert (w + tail)[..i] == w[..i];
          assert (w + tail)[i + 1..] == w[i + 1..] + tail; }
        (w + tail)[..i] + (w + tail)[i + 1..];
      }
    }
  }

  /** Pairs the elements of two sequences of equal length. */
  function Zip<A, B>(a: seq<A>, b: seq<B>): (r: seq<(A, B)>)
    requires |a| == |b|
    ensures |r| == |a|
    ensures forall i :: 0 <= i < |a| ==> r[i] == (a[i], b[i])
  {
    seq(|a|, i requires 0 <= i < |a| => (a[i], b[i]))
  }

  /** Removing the same indices from two equally long sequences keeps them
      equally long and aligned: survivor k of one and survivor k of the other
      came from the same original index. */
  lemma {:induction false} WithoutAligned<A, B>(a: seq<A>, b: seq<B>, drop: set<nat>)
    requires |a| == |b|
    ensures |Without(a, drop)| == |Without(b, drop)|
    ensures Without(Zip(a, b), drop) == Zip(Without(a, drop), Without(b, drop))
    decreases |a|
  {
    if |a| > 0 {
      var n := |a| - 1;
      WithoutAligned(a[..n], b[..n], drop);
      assert Zip(a, b)[..n] == Zip(a[..n], b[..n]);
    }
  }

  // ---------------------------------------------------------------------
  // Sorting and de-duplicating a list of indices
  // ---------------------------------------------------------------------

  predicate StrictlyIncreasing(s: seq<nat>) {
    forall i, j :: 0 <= i < j < |s| ==> s[i] < s[j]
  }

  /** The indices listed in `s`. */
  function Elems(s: seq<nat>): set<nat> {
    set k | k in s
  }

  lemma ElemsConcat(a: seq<nat>, b: seq<nat>)
    ensures Elems(a + b) == Elems(a) + Elems(b)
  {
    assert forall k :: k in a + b <==> k in a || k in b;
  }

  /** Inserts `x` at its place in a sorted sequence, unless present. */
  function InsertSorted(x: nat, s: seq<nat>): seq<nat>
    decreases |s|
  {
    if |s| == 0 then [x]
    else if x < s[0] then [x] + s
    else if x == s[0] then s
    else [s[0]] + InsertSorted(x, s[1..])
  }

  lemma {:induction false} InsertSortedElems(x: nat, s: seq<nat>)
    ensures Elems(InsertSorted(x, s)) == Elems(s) + {x}
    decreases |s|
  {
    if |s| == 0 {
    } else if x < s[0] {
      ElemsConcat([x], s);
    } else if x == s[0] {
      ElemsConcat([s[0]], s[1..]);
      assert [s[0]] + s[1..] == s;
    } else {
      InsertSortedElems(x, s[1..]);
      assert s == [s[0]] + s[1..];
      ElemsConcat([s[0]], s[1..]);
      ElemsConcat([s[0]], InsertSorted(x, s[1..]));
    }
  }

  /** Putting a smaller element in front keeps a sequence increasing. */
  lemma ConsIncreasing(h: nat, t: seq<nat>)
    requires StrictlyIncreasing(t)
    requires forall k :: k in t ==> h < k
    ensures StrictlyIncreasing([h] + t)
  {
    var r := [h] + t;
    forall i, j | 0 <= i < j < |r| ensures r[i] < r[j] {
      assert r[j] == t[j - 1] && t[j - 1] in t;
      if i > 0 {
        assert r[i] == t[i - 1];
      }
    }
  }

  lemma {:induction false} InsertSortedSpec(x: nat, s: seq<nat>)
    requires StrictlyIncreasing(s)
    ensures StrictlyIncreasing(InsertSorted(x, s))
    ensures Elems(InsertSorted(x, s)) == Elems(s) + {x}
    decreases |s|
  {
    InsertSortedElems(x, s);
    if |s| > 0 && x > s[0] {
      var t := s[1..];
      assert StrictlyIncreasing(t) by {
        forall i, j | 0 <= i < j < |t| ensures t[i] < t[j] {
          assert t[i] == s[i + 1] && t[j] == s[j + 1];
        }
      }
      var rest := InsertSorted(x, t);
      InsertSortedSpec(x, t);
      forall k | k in rest ensures s[0] < k {
        assert k in Elems(rest);
        if k != x {
          assert k in Elems(t);
          var m :| 0 <= m < |t| && t[m] == k;
          assert s[m + 1] == k;
        }
      }
      ConsIncreasing(s[0], rest);
    } else if |s| > 0 && x < s[0] {
      ConsIncreasing(x, s);
    }
  }

  /** What `std::sort` followed by `std::unique` and `erase` leaves of a list
      of indices: its distinct elements in increasing order. */
  function SortedUnique(s: seq<nat>): seq<nat>
    decreases |s|
  {
    if |s| == 0 then [] else InsertSorted(s[|s| - 1], SortedUnique(s[..|s| - 1]))
  }

  lemma {:induction false} SortedUniqueSpec(s: seq<nat>)
    ensures StrictlyIncreasing(SortedUnique(s))
    ensures Elems(SortedUnique(s)) == Elems(s)
    decreases |s|
  {
    if |s| > 0 {
      var n := |s| - 1;
      SortedUniqueSpec(s[..n]);
      InsertSortedSpec(s[n], SortedUnique(s[..n]));
      assert s == s[..n] + [s[n]];
      ElemsConcat(s[..n], [s[n]]);
    }
  }

  /** One step of erasing the indices of an increasing sequence from the back:
      with the indices after position `j` already erased, erasing `su[j]`
      removes the original element `s[su[j]]` and leaves `s` without the
      indices from position `j` on. */
  lemma EraseNext<T>(s: seq<T>, su: seq<nat>, j: nat)
    requires StrictlyIncreasing(su) && j < |su| && su[j] < |s|
    ensures var w := Without(s, Elems(su[j + 1..]));
      && su[j] < |w| && w[su[j]] == s[su[j]]
      && Without(s, Elems(su[j..])) == w[..su[j]] + w[su[j] + 1..]
  {
    var idx, drop := su[j], Elems(su[j + 1..]);
    forall d | d in drop ensures d > idx {
      var k :| 0 <= k < |su[j + 1..]| && su[j + 1..][k] == d;
      assert su[j + 1 + k] == d;
    }
    assert su[j..] == [idx] + su[j + 1..];
    ElemsConcat([idx], su[j + 1..]);
    assert Elems(su[j..]) == drop + {idx};
    WithoutEraseBelow(s, drop, idx);
    WithoutKeepsPrefix(s, drop, idx);
    var w := Without(s, drop);
    assert w[..idx + 1][idx] == s[..idx + 1][idx];
  }

  /** Erasing the distinct in-range indices `su[j..]` shortens a sequence by
      their number. */
  lemma {:induction false} WithoutLength<T>(s: seq<T>, su: seq<nat>, j: nat)
    requires StrictlyIncreasing(su) && j <= |su|
    requires forall x :: 0 <= x < |su| ==> su[x] < |s|
    ensures |Without(s, Elems(su[j..]))| == |s| - (|su| - j)
    decreases |su| - j
  {
    if j == |su| {
      assert Elems(su[j..]) == {};
      WithoutBeyond(s, {});
    } else {
      WithoutLength(s, su, j + 1);
      EraseNext(s, su, j);
    }
  }

  // ---------------------------------------------------------------------
  // The activity state machine shared by the Windows and Linux backends
  // ---------------------------------------------------------------------

  /** Whether the user is considered active, and when input was last seen. */
  datatype Activity = Activity(active: bool, lastActivity: int)

  /** Detected input: the timestamp is always refreshed; "became active" is
      announced only on a false-to-true change. */
  function OnInput(s: Activity, now: int): (r: (Activity, seq<Notice>))
    ensures r.0 == Activity(true, now)
    ensures r.1 == (if s.active then [] else [UserActive])
  {
    (Activity(true, now), if s.active then [] else [UserActive])
  }

  /** A run of detections at the given times, with everything they announce. */
  function OnInputs(s: Activity, times: seq<int>): (Activity, seq<Notice>)
    decreases |times|
  {
    if times == [] then (s, [])
    else
      var (s1, n1) := OnInput(s, times[0]);
      var (s2, n2) := OnInputs(s1, times[1..]);
      (s2, n1 + n2)
  }

  /** Any number of detections announces "became active" at most once, and
      only when the user was inactive; the timestamp ends at the last one. */
  lemma {:induction false} InputsAnnounceOnce(s: Activity, times: seq<int>)
    requires times != []
    ensures OnInputs(s, times).0 == Activity(true, times[|times| - 1])
    ensures OnInputs(s, times).1 == if s.active then [] else [UserActive]
    decreases |times|
  {
    if |times| > 1 {
      InputsAnnounceOnce(Activity(true, times[0]), times[1..]);
    }
  }

  /** The periodic inactivity check: the user becomes inactive, with one
      announcement, iff strictly more than `threshold` has elapsed while
      active; otherwise nothing changes. */
  function OnTick(s: Activity, now: int, threshold: int): (r: (Activity, seq<Notice>))
    ensures r.1 == [UserInactive] <==> now - s.lastActivity > threshold && s.active
    ensures r.1 == [] || r.1 == [UserInactive]
    ensures r.1 == [] ==> r.0 == s
    ensures r.1 != [] ==> r.0 == s.(active := false)
  {
    if now - s.lastActivity > threshold && s.active then (s.(active := false), [UserInactive])
    else (s, [])
  }

  /** A check soon enough after detected input announces nothing. */
  lemma QuietAfterInput(s: Activity, t: int, now: int, threshold: int)
    requires now - t <= threshold
    ensures OnTick(OnInput(s, t).0, now, threshold).1 == []
  {
  }

  /** Two checks in a row announce "became inactive" at most once. */
  lemma InactiveAnnouncedOnce(s: Activity, t1: int, t2: int, threshold: int)
    ensures var (s1, n1) := OnTick(s, t1, threshold);
      |n1 + OnTick(s1, t2, threshold).1| <= 1
  {
  }
}
