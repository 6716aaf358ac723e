/** Peer identifier allocation: a wrapping 32-bit counter, 256 tries, and a last resort. */
module PeerIds {

  const ID_SPACE: nat := 0x1_0000_0000
  const TRIES: nat := 256

  /** The k-th counter value after c, across the wrap. */
  function Nth(c: nat, k: nat): (v: nat)
    ensures v < ID_SPACE
  {
    (c + k) % ID_SPACE
  }

  predicate Free(id: nat, used: set<nat>) {
    id != 0 && id !in used
  }

  /** The first free value among the next n, or the value after them. */
  function Allocate(c: nat, used: set<nat>, n: nat): (k: nat)
    ensures k <= n
    ensures k < n ==> Free(Nth(c, k), used)
    ensures forall j :: 0 <= j < k ==> !Free(Nth(c, j), used)
    decreases n
  {
    if n == 0 then 0
    else
      var k := Allocate(c, used, n - 1);
      if k < n - 1 || Free(Nth(c, n - 1), used) then k else n
  }

  lemma NthStart(c: nat)
    requires c < ID_SPACE
    ensures Nth(c, 0) == c
  {
  }

  lemma NthNext(c: nat, k: nat)
    ensures Nth(c, k + 1) == (Nth(c, k) + 1) % ID_SPACE
  {
  }

  lemma AllocateIs(c: nat, used: set<nat>, n: nat, k: nat)
    requires k <= n && (k < n ==> Free(Nth(c, k), used))
    requires forall j :: 0 <= j < k ==> !Free(Nth(c, j), used)
    ensures Allocate(c, used, n) == k
  {
    hide Nth, Allocate;
  }

  /** The id handed out is good exactly when one of the next 257 counter values is. */
  lemma GoodIdIff(c: nat, used: set<nat>)
    ensures Free(Nth(c, Allocate(c, used, TRIES)), used) <==>
            exists k :: 0 <= k <= TRIES && Free(Nth(c, k), used)
  {
  }

  ghost function Window(c: nat, n: nat): set<nat>
  {
    set k | 0 <= k < n :: Nth(c, k)
  }

  lemma NthDistinct(c: nat, i: nat, j: nat)
    requires i < j < i + ID_SPACE
    ensures Nth(c, i) != Nth(c, j)
  {
  }

  lemma {:induction false} WindowSize(c: nat, n: nat)
    requires n <= ID_SPACE
    ensures |Window(c, n)| == n
    decreases n
  {
    if n > 0 {
      WindowSize(c, n - 1);
      forall i | 0 <= i < n - 1 ensures Nth(c, i) != Nth(c, n - 1) {
        NthDistinct(c, i, n - 1);
      }
      assert Nth(c, n - 1) !in Window(c, n - 1);
      assert Window(c, n) == Window(c, n - 1) + {Nth(c, n - 1)};
    }
  }

  lemma {:induction false} SubsetSize(a: set<nat>, b: set<nat>)
    requires a <= b
    ensures |a| <= |b|
    decreases a
  {
    if a != {} {
      var x :| x in a;
      SubsetSize(a - {x}, b - {x});
    }
  }

  /** With at most 255 ids in use the id handed out is nonzero and unused, wherever the counter stands. */
  lemma FreshWithinBound(c: nat, used: set<nat>)
    requires |used| <= 255
    ensures Free(Nth(c, Allocate(c, used, TRIES)), used)
  {
    var n := TRIES + 1;
    WindowSize(c, n);
    if Window(c, n) <= used + {0} {
      SubsetSize(Window(c, n), used + {0});
    } else {
      var v :| v in Window(c, n) && v !in used + {0};
      var k :| 0 <= k < n && v == Nth(c, k);
      GoodIdIff(c, used);
    }
  }

  /** The bound is sharp: with ids 1..256 in use and the counter at 0, id 256 is handed out again. */
  lemma BoundIsSharp()
    ensures var used := Window(1, TRIES);
      && |used| == 256
      && Nth(0, Allocate(0, used, TRIES)) == 256 && 256 in used
  {
    var used := Window(1, TRIES);
    WindowSize(1, TRIES);
    forall k | 0 <= k <= TRIES ensures !Free(Nth(0, k), used) {
      if k > 0 {
        assert Nth(0, k) == Nth(1, k - 1);
      }
    }
    assert Nth(0, 256) == Nth(1, 255);
  }

  /** And the reserved id 0 is handed out when the last 256 ids are in use and the counter is at the first of them. */
  lemma ReservedIdEscapes(c: nat)
    requires c == ID_SPACE - TRIES
    ensures var used := Window(c, TRIES);
      && |used| == 256 && 0 !in used
      && Nth(c, Allocate(c, used, TRIES)) == 0
  {
    hide Allocate;
    var used := Window(c, TRIES);
    WindowSize(c, TRIES);
    assert forall k :: 0 <= k < TRIES ==> Nth(c, k) == c + k;
    forall k | 0 <= k < TRIES ensures !Free(Nth(c, k), used) && Nth(c, k) != 0 {
      assert Nth(c, k) in used;
    }
  }
}
