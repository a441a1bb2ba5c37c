/** The frame filter of a server session, on top of the sliding window. */
module Session {
  import opened Wrappers
  import opened Dedup
  import Arith

  /** One frame: the window after it, and whether it is handed on. The first
      frame opens the window; one too far ahead moves it. */
  function Filter(d: Option<Window>, num: u64): (Option<Window>, bool) {
    match d
    case None => (Some(Fed(Window(num, 0), num)), true)
    case Some(w) =>
      match Judge(w, num)
      case Duplicate => (d, false)
      case TooFar(_) => (Some(Resynced(num)), true)
      case _ => (Some(Fed(w, num)), true)
  }

  /** The filter after some frames. */
  function After(nums: seq<u64>): (d: Option<Window>)
    ensures d.Some? <==> nums != []
  {
    if nums == [] then None else Filter(After(nums[..|nums| - 1]), nums[|nums| - 1]).0
  }

  /** Whether frame `i` is handed on. */
  predicate Hands(nums: seq<u64>, i: nat)
    requires i < |nums|
  {
    Filter(After(nums[..i]), nums[i]).1
  }

  /** Frame `k` opened the window, or moved it because it was too far ahead. */
  predicate Jumps(nums: seq<u64>, k: nat)
    requires k < |nums|
  {
    k == 0 || Judge(After(nums[..k]).value, nums[k]).TooFar?
  }

  /** What frame `k` makes old: its own number when it is handed on, and every
      smaller one too when it opens or moves the window. */
  predicate Covers(nums: seq<u64>, k: nat, x: u64)
    requires k < |nums|
  {
    if Jumps(nums, k) then x <= nums[k] else Hands(nums, k) && x == nums[k]
  }

  /** The window is back at zero with nothing marked: all that came is forgotten. */
  predicate Forgets(nums: seq<u64>) {
    After(nums) == Some(Window(0, 0))
  }

  /** How many frames came up to the last time the filter forgot. */
  function Restart(nums: seq<u64>): (r: nat)
    ensures r <= |nums|
  {
    if nums == [] || Forgets(nums) then |nums| else Restart(nums[..|nums| - 1])
  }

  /** Made old by a frame since then. */
  ghost predicate Covered(nums: seq<u64>, x: u64) {
    exists k :: Restart(nums) <= k < |nums| && Covers(nums, k, x)
  }

  // ------------------------------------------------------------ one more frame

  lemma CoversInPrefix(nums: seq<u64>, n: nat, k: nat)
    requires k < n <= |nums|
    ensures Hands(nums[..n], k) <==> Hands(nums, k)
    ensures Jumps(nums[..n], k) <==> Jumps(nums, k)
    ensures forall x: u64 :: Covers(nums[..n], k, x) <==> Covers(nums, k, x)
  {
    assert nums[..n][..k] == nums[..k];
  }

  lemma CoveredNext(nums: seq<u64>, x: u64)
    requires nums != [] && !Forgets(nums)
    ensures var n := |nums| - 1; Covered(nums, x) <==> Covered(nums[..n], x) || Covers(nums, n, x)
  {
    var n := |nums| - 1;
    forall k | 0 <= k < n ensures Covers(nums[..n], k, x) <==> Covers(nums, k, x) { CoversInPrefix(nums, n, k); }
    hide Covers, Forgets;
    if Covered(nums[..n], x) {
      var k :| Restart(nums[..n]) <= k < n && Covers(nums[..n], k, x);
      assert Covers(nums, k, x);
    }
    if Covered(nums, x) && !Covers(nums, n, x) {
      var k :| Restart(nums) <= k <= n && Covers(nums, k, x);
      assert Covers(nums[..n], k, x);
    }
  }

  lemma NewWindow(num: u64)
    requires num < U64_MAX
    ensures Judge(Window(num, 0), num).InOrder? && Fed(Window(num, 0), num) == Window(num + 1, 0) == Resynced(num)
    ensures Sound(Resynced(num)) && forall s: u64 :: Records(Resynced(num), s) <==> s <= num
  {
    forall i: nat ensures !Bit(0, i) { ZeroHasNoBits(i); }
    assert Landing(num + 1, 0) == num + 1;
  }

  lemma LargestFirst()
    ensures Sound(Window(U64_MAX, 0)) && Completes(Window(U64_MAX, 0), U64_MAX)
  {
    forall i: nat ensures !Bit(0, i) { ZeroHasNoBits(i); }
  }

  lemma RecordsAreNear(w: Window, s: u64)
    requires Records(w, s)
    ensures s <= w.base + WINDOW_SIZE
  {
    Arith.Pow64();
    if s > w.base + WINDOW_SIZE { HighBitsAreClear(w.bitmap, 64, s - w.base - 1); }
  }

  /** One frame: whether it is handed on, what the new window has recorded, and
      when it has recorded nothing. */
  lemma FilterRecords(w: Window, num: u64)
    requires Sound(w)
    ensures var (d, handed) := Filter(Some(w), num);
            && d.Some? && Sound(d.value) && (handed <==> !Records(w, num))
            && (d.value == Window(0, 0) <==>
                Completes(w, num) || (num == U64_MAX && Judge(w, num).TooFar?))
            && (d.value != Window(0, 0) ==>
                forall s: u64 :: Records(d.value, s) <==>
                  Records(w, s) || (handed && if Judge(w, num).TooFar? then s <= num else s == num))
  {
    DuplicateIsRecorded(w, num);
    NothingRecorded();
    if Completes(w, num) {
      CompletingForgets(w, num);
    } else if Judge(w, num).TooFar? {
      forall s: u64 | Records(w, s) ensures s <= num { RecordsAreNear(w, s); }
      if num < U64_MAX { NewWindow(num); }
    } else {
      FedRecords(w, num);
    }
  }

  lemma OnlyOne(num: u64)
    ensures After([num]) == if num < U64_MAX then Some(Resynced(num)) else Some(Window(0, 0))
  {
    assert [num][..0] == [];
    if num < U64_MAX {
      NewWindow(num);
    } else {
      LargestFirst();
      CompletingForgets(Window(U64_MAX, 0), U64_MAX);
    }
  }

  /** The window has recorded exactly what the frames since the last forgetting cover. */
  lemma {:induction false} StreamHolds(nums: seq<u64>)
    requires nums != []
    ensures Sound(After(nums).value)
    ensures forall s: u64 :: Records(After(nums).value, s) <==> Covered(nums, s)
  {
    var n := |nums| - 1;
    var front, last := nums[..n], nums[n];
    NothingRecorded();
    if front == [] {
      assert nums == [last];
      OnlyOne(last);
      if last < U64_MAX { NewWindow(last); }
    } else {
      StreamHolds(front);
      FilterRecords(After(front).value, last);
    }
    hide Filter, Sound, Records, Resynced;
    if !Forgets(nums) {
      forall s: u64 ensures Records(After(nums).value, s) <==> Covered(nums, s) { CoveredNext(nums, s); }
    }
  }

  // ------------------------------------------------------------------ whole runs

  /** A frame is dropped exactly when its number is covered: some frame with it was
      handed on, or one at least as large opened or moved the window, since the
      filter last forgot. */
  lemma DropsExactly(nums: seq<u64>, x: u64)
    ensures !Hands(nums + [x], |nums|) <==> Covered(nums, x)
  {
    assert (nums + [x])[..|nums|] == nums;
    if nums != [] {
      StreamHolds(nums);
      FilterRecords(After(nums).value, x);
    }
  }

  /** The filter forgets exactly when the largest number opens or moves the window,
      or when the last number not covered comes. */
  lemma ForgetsExactly(nums: seq<u64>, x: u64)
    ensures Forgets(nums + [x]) <==>
            || (x == U64_MAX && Jumps(nums + [x], |nums|))
            || (nums != [] && !Covered(nums, x) && forall s: u64 :: s != x ==> Covered(nums, s))
  {
    assert (nums + [x])[..|nums|] == nums;
    if nums == [] {
      OnlyOne(x);
    } else {
      var w := After(nums).value;
      StreamHolds(nums);
      FilterRecords(w, x);
      assert !Records(w, w.base);
    }
  }

  /** The acknowledgement is the least number that would be handed on. */
  lemma AckIsLeastWanted(nums: seq<u64>, s: u64)
    requires nums != []
    ensures var ack := After(nums).value.base;
            Hands(nums + [ack], |nums|) && (s < ack ==> !Hands(nums + [s], |nums|))
  {
    StreamHolds(nums);
    DropsExactly(nums, After(nums).value.base);
    DropsExactly(nums, s);
  }

  lemma {:induction false} RestartInPrefix(nums: seq<u64>, n: nat)
    requires Restart(nums) <= n <= |nums|
    ensures Restart(nums[..n]) == Restart(nums)
  {
    if n < |nums| {
      RestartInPrefix(nums[..|nums| - 1], n);
      assert nums[..|nums| - 1][..n] == nums[..n];
    } else {
      assert nums[..n] == nums;
    }
  }

  /** Whatever came since the filter last forgot is covered. */
  lemma SeenIsCovered(nums: seq<u64>, k: nat)
    requires Restart(nums) <= k < |nums|
    ensures Covered(nums, nums[k])
  {
    if Hands(nums, k) {
      assert Covers(nums, k, nums[k]);
    } else {
      var front := nums[..k];
      RestartInPrefix(nums, k);
      DropsExactly(front, nums[k]);
      assert (front + [nums[k]])[..k] == front;
      var j :| Restart(front) <= j < k && Covers(front, j, nums[k]);
      CoversInPrefix(nums, k, j);
    }
  }

  lemma AboveIsNotCovered(nums: seq<u64>, x: u64)
    requires forall k :: 0 <= k < |nums| ==> nums[k] < x
    ensures !Covered(nums, x)
  {}

  /** For every stream: a number is handed on again only after the filter forgot,
      every new maximum is handed on, and a dropped frame is not newer than some
      frame handed on before. */
  lemma FilterIsExact(nums: seq<u64>, i: nat, j: nat)
    requires i < j < |nums|
    ensures Hands(nums, 0)
    ensures Hands(nums, j) && nums[i] == nums[j] ==> i < Restart(nums[..j])
    ensures (forall k :: 0 <= k < j ==> nums[k] < nums[j]) ==> Hands(nums, j)
    ensures !Hands(nums, j) ==> exists k :: 0 <= k < j && Hands(nums, k) && nums[k] >= nums[j]
  {
    var before, x := nums[..j], nums[j];
    DropsExactly(before, x);
    assert (before + [x])[..j] == before;
    if nums[i] == x && Restart(before) <= i { SeenIsCovered(before, i); }
    if forall k :: 0 <= k < j ==> nums[k] < x { AboveIsNotCovered(before, x); }
    if Covered(before, x) {
      var k :| Restart(before) <= k < j && Covers(before, k, x);
      CoversInPrefix(nums, j, k);
      assert Hands(nums, k) && nums[k] >= x;
    }
  }

  /** A stream below the largest number is never forgotten, so nothing in it is
      handed on twice. */
  lemma {:induction false} BelowMaxIsRemembered(nums: seq<u64>)
    requires forall k :: 0 <= k < |nums| ==> nums[k] < U64_MAX
    ensures Restart(nums) == 0
  {
    if nums != [] {
      var n := |nums| - 1;
      var front, last := nums[..n], nums[n];
      hide Covered, Covers, Forgets, Jumps;
      BelowMaxIsRemembered(front);
      AboveIsNotCovered(front, U64_MAX);
      assert nums == front + [last];
      ForgetsExactly(front, last);
    }
  }

  /** The largest number is handed on exactly when it has not come since the filter last forgot. */
  lemma LargestTwice(nums: seq<u64>)
    ensures Hands(nums + [U64_MAX], |nums|) <==>
            forall k :: Restart(nums) <= k < |nums| ==> nums[k] != U64_MAX
  {
    DropsExactly(nums, U64_MAX);
    forall k | Restart(nums) <= k < |nums| && nums[k] == U64_MAX ensures Covered(nums, U64_MAX) {
      SeenIsCovered(nums, k);
    }
  }

  /** The least number from the first one on that has not come. */
  ghost predicate LeastMissing(nums: seq<u64>, s: nat) {
    && nums != [] && nums[0] < s && s !in nums
    && forall x: u64 :: nums[0] <= x < s ==> x in nums
  }

  /** A stream as a sender with a bounded number of frames on the way produces it: no
      number twice, none before the first or the largest there is, and none more than 64
      ahead of the least one missing when it comes. */
  ghost predicate Bounded(nums: seq<u64>) {
    && (forall i, j :: 0 <= i < j < |nums| ==> nums[i] != nums[j])
    && (forall i :: 0 <= i < |nums| ==> nums[0] <= nums[i] < U64_MAX)
    && (forall i, s: nat :: 0 < i < |nums| && LeastMissing(nums[..i], s) ==> nums[i] <= s + 64)
  }

  lemma BoundedFront(nums: seq<u64>)
    requires Bounded(nums) && |nums| > 1
    ensures Bounded(nums[..|nums| - 1])
  {
    var front := nums[..|nums| - 1];
    forall i, s: nat | 0 < i < |front| && LeastMissing(front[..i], s) ensures front[i] <= s + 64 {
      assert front[..i] == nums[..i];
    }
  }

  /** The window has recorded what came and what is below the first. */
  ghost predicate Tracks(w: Window, nums: seq<u64>) {
    nums != [] && Sound(w) && forall s: u64 :: Records(w, s) <==> s < nums[0] || s in nums
  }

  lemma TracksLeast(w: Window, nums: seq<u64>)
    requires Tracks(w, nums)
    ensures LeastMissing(nums, w.base)
  {
    assert !Records(w, w.base) && nums[0] in nums;
    assert forall x: u64 :: x < w.base ==> Records(w, x);
  }

  lemma TracksNext(w: Window, front: seq<u64>, last: u64)
    requires Tracks(w, front) && front[0] <= last < U64_MAX && last !in front && U64_MAX !in front
    requires last <= w.base + 64
    ensures !Judge(w, last).TooFar? && Filter(Some(w), last) == (Some(Fed(w, last)), true)
    ensures Tracks(Fed(w, last), front + [last])
  {
    VerdictIff(w, last);
    assert !Records(w, last) && !Records(w, U64_MAX);
    hide Judge, Fed, Records;
    NoWrapBelow(w, last);
    FedRecords(w, last);
  }

  /** Every frame of such a stream is handed on, and the window waits for the least number missing. */
  lemma {:induction false} BoundedIsHandedOn(nums: seq<u64>)
    requires Bounded(nums) && nums != []
    ensures forall i :: 0 <= i < |nums| ==> Hands(nums, i)
    ensures forall i :: 0 < i < |nums| ==> !Jumps(nums, i)
    ensures Tracks(After(nums).value, nums) && LeastMissing(nums, After(nums).value.base)
  {
    var n := |nums| - 1;
    var front, last := nums[..n], nums[n];
    assert nums == front + [last];
    if n == 0 {
      OnlyOne(last);
      NewWindow(last);
      assert nums == [last];
    } else {
      BoundedFront(nums);
      BoundedIsHandedOn(front);
      hide Tracks, LeastMissing, Judge, Fed;
      TracksNext(After(front).value, front, last);
      forall i | 0 <= i < n ensures Hands(nums, i) && (i > 0 ==> !Jumps(nums, i)) { CoversInPrefix(nums, n, i); }
    }
    TracksLeast(After(nums).value, nums);
  }

  /** The largest number waits out of order, the one before it completes the window,
      and the largest is handed on once more. */
  lemma LargestHandedTwice()
    ensures var nums := [U64_MAX - 2, U64_MAX, U64_MAX - 1, U64_MAX]; Hands(nums, 1) && Hands(nums, 3)
  {
    var nums: seq<u64> := [U64_MAX - 2, U64_MAX, U64_MAX - 1, U64_MAX];
    assert nums[..1] == [U64_MAX - 2];
    OnlyOne(U64_MAX - 2);
    assert nums[..2][..1] == nums[..1] && nums[..3][..2] == nums[..2];
    assert After(nums[..2]) == Some(Window(U64_MAX - 1, 1)) by {
      assert WithBit(0, 0) == 1;
    }
    assert After(nums[..3]) == Some(Window(0, 0)) by {
      assert Landing(U64_MAX, 1) == Landing(TWO_64, 0);
    }
  }

  /** The largest number moves the window, and a small one is handed on once more. */
  lemma SmallHandedTwice()
    ensures var nums := [5, U64_MAX, 5]; Hands(nums, 0) && Hands(nums, 2)
  {
    var nums: seq<u64> := [5, U64_MAX, 5];
    assert nums[..1] == [5] && nums[..2] == [5] + [U64_MAX] && nums == nums[..2] + [5];
    OnlyOne(5);
    ForgetsExactly([5], U64_MAX);
    DropsExactly(nums[..2], 5);
  }

  class SessionState {
    var dedup: DedupWindow?

    function View(): Option<Window>
      reads this, dedup
    {
      if dedup == null then None else Some(dedup.View())
    }

    constructor ()
      ensures View() == None
    {
      dedup := null;
    }

    method FeedSeq(num: u64) returns (v: Verdict)
      modifies this, dedup
      ensures dedup != null && (fresh(dedup) || dedup == old(dedup))
      ensures v == Judge(if old(View()).None? then Window(num, 0) else old(View()).value, num)
      ensures View() == Some(Fed(if old(View()).None? then Window(num, 0) else old(View()).value, num))
    {
      if dedup != null {
        v := dedup.Feed(num);
        return;
      }
      var window := new DedupWindow(num);
      v := window.Feed(num);
      dedup := window;
    }

    method Resync(num: u64)
      modifies dedup
      ensures dedup == old(dedup) && View() == if old(View()).None? then None else Some(Resynced(num))
    {
      if dedup != null { dedup.Resync(num); }
    }

    method Receive(num: u64) returns (handed: bool)
      modifies this, dedup
      ensures dedup != null && (fresh(dedup) || dedup == old(dedup))
      ensures (View(), handed) == Filter(old(View()), num)
    {
      var v := FeedSeq(num);
      match v
      case Duplicate => return false;
      case TooFar(_) => Resync(num); return true;
      case _ => return true;
    }
  }

  /** The receive loop: which frames reach the handler. */
  method Serve(nums: seq<u64>) returns (handed: seq<bool>)
    ensures |handed| == |nums| && forall i :: 0 <= i < |nums| ==> handed[i] == Hands(nums, i)
  {
    hide Filter;
    handed := [];
    var state := new SessionState();
    for i := 0 to |nums|
      invariant fresh(state) && (state.dedup != null ==> fresh(state.dedup))
      invariant state.View() == After(nums[..i])
      invariant |handed| == i && forall k :: 0 <= k < i ==> handed[k] == Hands(nums, k)
    {
      var hand := state.Receive(nums[i]);
      assert nums[..i + 1][..i] == nums[..i];
      handed := handed + [hand];
    }
    assert nums[..|nums|] == nums;
  }
}
