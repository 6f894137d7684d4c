/** The physical frame allocator of `kernel/src/memory/pmm.c`: what its functions compute,
    and what holds of every run of requests and releases. */
module Frames {
  import opened Bits
  import opened Options

  /** The allocator's static variables.  `bits` is the bitmap, one bit a frame, set when the
      frame is locked; `lastFree` is the hint where the next search starts. */
  datatype State = State(bits: seq<bool>, lastFree: nat, freeMemory: Word, totalMemory: Word)

  function Total(st: State): nat {
    st.totalMemory / 0x1000
  }

  predicate Free(st: State, n: nat) {
    n < |st.bits| && !st.bits[n]
  }

  // lock_page and unlock_page: only a real change is accounted.
  function LockPage(st: State, n: nat): State {
    if Free(st, n) then
      st.(bits := st.bits[n := true], freeMemory := (st.freeMemory - 0x1000) % 0x1_0000_0000_0000_0000)
    else st
  }

  function UnlockPage(st: State, n: nat): State {
    if n < |st.bits| && st.bits[n] then
      st.(bits := st.bits[n := false], freeMemory := (st.freeMemory + 0x1000) % 0x1_0000_0000_0000_0000)
    else st
  }

  function LockPages(st: State, n: nat, count: nat): State {
    if count == 0 then st else LockPage(LockPages(st, n, count - 1), n + count - 1)
  }

  function UnlockPages(st: State, n: nat, count: nat): State {
    if count == 0 then st else UnlockPage(UnlockPages(st, n, count - 1), n + count - 1)
  }

  predicate RunFree(st: State, n: nat, count: nat) {
    forall k :: n <= k < n + count ==> Free(st, k)
  }

  // The first frame from `n` on that starts a run of `count` free frames.
  function Scan(st: State, n: nat, count: nat): Option<nat>
    decreases Total(st) - n
  {
    if n >= Total(st) then None
    else if RunFree(st, n, count) then Some(n)
    else Scan(st, n + 1, count)
  }

  // pmm_request_pages; None is the NULL it returns.
  function Request(st: State, count: nat): Option<(nat, State)> {
    var n :- Scan(st, st.lastFree, count);
    Some((n, LockPages(st, n, count).(lastFree := n + count)))
  }

  // pmm_release_pages.  The hint is compared with, and set to, the byte address.
  function Release(st: State, n: nat, count: nat): State {
    var st' := UnlockPages(st, n, count);
    if 0x1000 * n < st.lastFree then st'.(lastFree := 0x1000 * n) else st'
  }

  // The number of free frames in [lo, hi).
  function CountFree(st: State, lo: nat, hi: nat): nat {
    if hi <= lo then 0 else CountFree(st, lo, hi - 1) + (if Free(st, hi - 1) then 1 else 0)
  }

  /** What initialization establishes and every operation keeps.  All bits from the frame count
      on are locked; there is at least one such bit, which ends every scan. */
  ghost predicate Valid(st: State) {
    && Total(st) < |st.bits|
    && (forall n :: Total(st) <= n < |st.bits| ==> st.bits[n])
    && st.lastFree <= Total(st)
    && 0x1000 * |st.bits| < 0x1_0000_0000_0000_0000
    && st.freeMemory == 0x1000 * CountFree(st, 0, |st.bits|)
  }

  // ----- counting

  lemma {:induction false} CountLocal(st: State, st': State, lo: nat, hi: nat)
    requires forall n :: lo <= n < hi ==> Free(st, n) == Free(st', n)
    ensures CountFree(st, lo, hi) == CountFree(st', lo, hi) <= (if lo <= hi then hi - lo else 0)
  {
    if lo < hi {
      CountLocal(st, st', lo, hi - 1);
    }
  }

  lemma {:induction false} CountSplit(st: State, lo: nat, mid: nat, hi: nat)
    requires lo <= mid <= hi
    ensures CountFree(st, lo, hi) == CountFree(st, lo, mid) + CountFree(st, mid, hi)
  {
    if mid < hi {
      CountSplit(st, lo, mid, hi - 1);
    }
  }

  // Changing one frame from free to locked changes every count over it by one.
  lemma CountOne(st: State, st': State, lo: nat, n: nat, hi: nat)
    requires lo <= n < hi && Free(st, n) && !Free(st', n)
    requires forall k :: k != n && lo <= k < hi ==> Free(st, k) == Free(st', k)
    ensures CountFree(st, lo, hi) == CountFree(st', lo, hi) + 1
  {
    CountSplit(st, lo, n, hi);
    CountSplit(st', lo, n, hi);
    CountSplit(st, n, n + 1, hi);
    CountSplit(st', n, n + 1, hi);
    CountLocal(st, st', lo, n);
    CountLocal(st, st', n + 1, hi);
    assert CountFree(st, n, n + 1) == CountFree(st, n, n) + 1;
    assert CountFree(st', n, n + 1) == CountFree(st', n, n);
  }

  // ----- locking and unlocking runs

  lemma LockOne(st: State, n: nat)
    requires Valid(st) && n < Total(st) && Free(st, n)
    ensures Valid(LockPage(st, n)) && LockPage(st, n).freeMemory == st.freeMemory - 0x1000
  {
    CountOne(st, LockPage(st, n), 0, n, |st.bits|);
  }

  lemma UnlockOne(st: State, n: nat)
    requires Valid(st) && n < Total(st) && st.bits[n]
    ensures Valid(UnlockPage(st, n)) && UnlockPage(st, n).freeMemory == st.freeMemory + 0x1000
  {
    var st' := UnlockPage(st, n);
    CountOne(st', st, 0, n, |st.bits|);
    CountLocal(st', st', 0, |st.bits|);
  }

  // Locking a run locks exactly its frames, and lowers free_memory by what was free of it.
  lemma {:induction false} LockPagesEffect(st: State, n: nat, count: nat)
    requires Valid(st) && n + count <= Total(st)
    ensures var st' := LockPages(st, n, count);
      && Valid(st') && st'.lastFree == st.lastFree && st'.totalMemory == st.totalMemory
      && |st'.bits| == |st.bits|
      && (forall k :: 0 <= k < |st.bits| ==> st'.bits[k] == (st.bits[k] || n <= k < n + count))
      && (RunFree(st, n, count) ==> st'.freeMemory == st.freeMemory - 0x1000 * count)
  {
    if count > 0 {
      LockPagesEffect(st, n, count - 1);
      var st1 := LockPages(st, n, count - 1);
      if Free(st1, n + count - 1) {
        LockOne(st1, n + count - 1);
      }
      if RunFree(st, n, count) {
        assert RunFree(st, n, count - 1);
        assert Free(st, n + count - 1);
      }
    }
  }

  lemma {:induction false} UnlockPagesEffect(st: State, n: nat, count: nat)
    requires Valid(st) && n + count <= Total(st)
    ensures var st' := UnlockPages(st, n, count);
      && Valid(st') && st'.lastFree == st.lastFree && st'.totalMemory == st.totalMemory
      && |st'.bits| == |st.bits|
      && (forall k :: 0 <= k < |st.bits| ==> st'.bits[k] == (st.bits[k] && !(n <= k < n + count)))
      && ((forall k :: n <= k < n + count ==> !Free(st, k)) ==>
            st'.freeMemory == st.freeMemory + 0x1000 * count)
  {
    if count > 0 {
      UnlockPagesEffect(st, n, count - 1);
      var st1 := UnlockPages(st, n, count - 1);
      assert !Free(st, n + count - 1) ==> st1.bits[n + count - 1];
      if st1.bits[n + count - 1] {
        UnlockOne(st1, n + count - 1);
      }
    }
  }

  // The frame after the run is not touched.
  lemma {:induction false} LockPagesLocal(st: State, n: nat, count: nat, k: nat)
    requires k >= n + count
    ensures Free(LockPages(st, n, count), k) == Free(st, k) && |LockPages(st, n, count).bits| == |st.bits|
  {
    if count > 0 {
      LockPagesLocal(st, n, count - 1, k);
    }
  }

  lemma {:induction false} UnlockPagesLocal(st: State, n: nat, count: nat, k: nat)
    requires k >= n + count
    ensures Free(UnlockPages(st, n, count), k) == Free(st, k) && |UnlockPages(st, n, count).bits| == |st.bits|
  {
    if count > 0 {
      UnlockPagesLocal(st, n, count - 1, k);
    }
  }

  // ----- the scan

  // The scan returns the first run, and the locked bit at the frame count keeps it in bounds.
  lemma {:induction false} ScanEffect(st: State, n: nat, count: nat)
    requires Valid(st)
    ensures match Scan(st, n, count)
      case Some(r) =>
        && n <= r && r + count <= Total(st) && RunFree(st, r, count)
        && forall k :: n <= k < r ==> !RunFree(st, k, count)
      case None => forall k :: n <= k < Total(st) ==> !RunFree(st, k, count)
    decreases Total(st) - n
  {
    if n < Total(st) {
      if RunFree(st, n, count) {
        assert !Free(st, Total(st));
      } else {
        ScanEffect(st, n + 1, count);
      }
    }
  }

  // ----- one request, one release

  lemma RequestEffect(st: State, count: nat)
    requires Valid(st)
    ensures match Request(st, count)
      case None => forall k :: st.lastFree <= k < Total(st) ==> !RunFree(st, k, count)
      case Some((n, st')) =>
        && Valid(st')
        && st.lastFree <= n && n + count <= Total(st)
        && RunFree(st, n, count) && (forall k :: st.lastFree <= k < n ==> !RunFree(st, k, count))
        && st'.totalMemory == st.totalMemory && |st'.bits| == |st.bits|
        && (forall k :: 0 <= k < |st.bits| ==> st'.bits[k] == (st.bits[k] || n <= k < n + count))
        && st'.freeMemory == st.freeMemory - 0x1000 * count
        && st'.lastFree == n + count
  {
    ScanEffect(st, st.lastFree, count);
    if Scan(st, st.lastFree, count).Some? {
      var n := Scan(st, st.lastFree, count).value;
      LockPagesEffect(st, n, count);
      var st1 := LockPages(st, n, count);
      CountLocal(st1, st1.(lastFree := n + count), 0, |st.bits|);
    }
  }

  lemma ReleaseEffect(st: State, n: nat, count: nat)
    requires Valid(st) && n + count <= Total(st)
    requires forall k :: n <= k < n + count ==> !Free(st, k)
    ensures var st' := Release(st, n, count);
      && Valid(st') && st'.totalMemory == st.totalMemory && |st'.bits| == |st.bits|
      && (forall k :: 0 <= k < |st.bits| ==> st'.bits[k] == (st.bits[k] && !(n <= k < n + count)))
      && st'.freeMemory == st.freeMemory + 0x1000 * count
      && st'.lastFree == if 0x1000 * n < st.lastFree then 0x1000 * n else st.lastFree
  {
    UnlockPagesEffect(st, n, count);
    var st1 := UnlockPages(st, n, count);
    CountLocal(st1, st1.(lastFree := 0x1000 * n), 0, |st.bits|);
  }

  // ----- single frames, as the page tables request them

  // What a further search can still find.
  function Available(st: State): nat {
    CountFree(st, st.lastFree, Total(st))
  }

  lemma RunOfOne(st: State, n: nat)
    ensures RunFree(st, n, 1) <==> Free(st, n)
  {
    assert RunFree(st, n, 1) ==> Free(st, n);
  }

  lemma {:induction false} CountZero(st: State, lo: nat, hi: nat)
    ensures CountFree(st, lo, hi) == 0 <==> forall k :: lo <= k < hi ==> !Free(st, k)
  {
    if lo < hi {
      CountZero(st, lo, hi - 1);
    }
  }

  // A one-frame request fails exactly when nothing is free from the hint on; otherwise it takes
  // the first such frame, and exactly one frame less is available.
  lemma RequestOneEffect(st: State)
    requires Valid(st)
    ensures Request(st, 1).Some? <==> Available(st) > 0
    ensures Request(st, 1).Some? ==>
      var (n, st') := Request(st, 1).value;
      && Valid(st') && st.lastFree <= n < Total(st) && Free(st, n)
      && (forall k :: st.lastFree <= k < n ==> !Free(st, k))
      && st' == State(st.bits[n := true], n + 1, st'.freeMemory, st.totalMemory)
      && Available(st') == Available(st) - 1
  {
    hide CountFree, LockPages, Scan;
    RequestEffect(st, 1);
    CountZero(st, st.lastFree, Total(st));
    forall k {
      RunOfOne(st, k);
    }
    if Request(st, 1).Some? {
      var (n, st') := Request(st, 1).value;
      assert st'.bits == st.bits[n := true];
      TakeOne(st, st', n);
    }
  }

  lemma TakeOne(st: State, st': State, n: nat)
    requires st.lastFree <= n < Total(st) && Free(st, n) && n < |st.bits|
    requires forall k :: st.lastFree <= k < n ==> !Free(st, k)
    requires st' == State(st.bits[n := true], n + 1, st'.freeMemory, st.totalMemory)
    ensures Available(st') == Available(st) - 1
  {
    CountSplit(st, st.lastFree, n, Total(st));
    CountZero(st, st.lastFree, n);
    CountOne(st, st', n, n, Total(st));
    CountSplit(st', n, n + 1, Total(st));
    assert CountFree(st', n, n + 1) == CountFree(st', n, n);
  }

  // ----- next fit finds every free frame, as long as nothing is released

  ghost predicate BelowHintLocked(st: State) {
    forall k :: 0 <= k < st.lastFree ==> !Free(st, k)
  }

  function RequestMany(st: State, times: nat): (seq<Option<nat>>, State)
    decreases times
  {
    if times == 0 then ([], st)
    else
      match Request(st, 1)
      case None => var (rest, st') := RequestMany(st, times - 1); ([None] + rest, st')
      case Some((n, st1)) => var (rest, st') := RequestMany(st1, times - 1); ([Some(n)] + rest, st')
  }

  // Over any run of one-frame requests, every frame below the hint stays locked, the granted
  // frames strictly increase, and a request fails only when no frame at all is free.
  lemma {:induction false} NextFitComplete(st: State, times: nat)
    requires Valid(st) && BelowHintLocked(st)
    ensures var (results, st') := RequestMany(st, times);
      && Valid(st') && BelowHintLocked(st') && |results| == times
      && (forall i :: 0 <= i < times && results[i].Some? ==> st.lastFree <= results[i].value)
      && (forall i, j :: 0 <= i < j < times && results[i].Some? && results[j].Some? ==>
            results[i].value < results[j].value)
      && (forall i :: 0 <= i < times && results[i].None? ==> forall k :: !Free(st', k))
    decreases times
  {
    if times > 0 {
      RequestOneEffect(st);
      CountZero(st, st.lastFree, Total(st));
      match Request(st, 1)
      case None =>
        assert forall k :: !Free(st, k);
        NextFitExhausted(st, times - 1);
      case Some((n, st1)) =>
        assert forall k :: Free(st1, k) <==> Free(st, k) && k != n;
        NextFitComplete(st1, times - 1);
        var (rest, st') := RequestMany(st1, times - 1);
        var (results, _) := RequestMany(st, times);
        assert results == [Some(n)] + rest;
    }
  }

  lemma {:induction false} NextFitExhausted(st: State, times: nat)
    requires Valid(st) && forall k :: !Free(st, k)
    ensures var (results, st') := RequestMany(st, times);
      && st' == st && |results| == times && forall i :: 0 <= i < times ==> results[i].None?
    decreases times
  {
    if times > 0 {
      RequestOneEffect(st);
      assert Request(st, 1).None?;
      NextFitExhausted(st, times - 1);
    }
  }

  // After a release the hint is a byte address, so the search is complete again exactly when
  // the released run was empty or starts where the new hint does not exceed it.
  lemma ReleaseBreaksNextFit(st: State, n: nat, count: nat)
    requires Valid(st) && BelowHintLocked(st) && n + count <= Total(st)
    requires forall k :: n <= k < n + count ==> !Free(st, k)
    ensures BelowHintLocked(Release(st, n, count)) <==> count == 0 || n == 0 || st.lastFree <= n
  {
    ReleaseEffect(st, n, count);
    var st' := Release(st, n, count);
    assert forall k: nat :: Free(st', k) <==> Free(st, k) || n <= k < n + count;
    if count > 0 && n > 0 && n < st.lastFree {
      assert Free(st', n) && n < st'.lastFree;
    }
  }

  // With all memory taken, a released frame is granted again by the next request exactly when the
  // hint lets the search reach it.
  lemma ReleasedFrameIsFoundIff(st: State, n: nat)
    requires Valid(st) && n < Total(st) && forall k :: !Free(st, k)
    ensures Free(Release(st, n, 1), n)
    ensures Request(Release(st, n, 1), 1).Some? <==> n == 0 || st.lastFree <= n
  {
    ReleaseEffect(st, n, 1);
    var st' := Release(st, n, 1);
    forall k: nat
      ensures Free(st', k) <==> k == n
    {
      assert !Free(st, k);
    }
    assert Free(st', n) && (st'.lastFree <= n <==> n == 0 || st.lastFree <= n);
    RequestOneEffect(st');
    CountZero(st', st'.lastFree, Total(st'));
  }

  // ----- every run of requests and releases

  datatype Run = Run(first: nat, count: nat)

  /** The allocator together with the runs granted and not yet released. */
  datatype Book = Book(st: State, live: seq<Run>)

  datatype Op = Ask(count: nat) | GiveBack(index: nat)

  predicate Covers(r: Run, f: nat) {
    r.first <= f < r.first + r.count
  }

  predicate InLive(live: seq<Run>, f: nat) {
    exists i :: 0 <= i < |live| && Covers(live[i], f)
  }

  predicate Disjoint(r: Run, q: Run) {
    r.first + r.count <= q.first || q.first + q.count <= r.first || r.count == 0 || q.count == 0
  }

  ghost predicate BookValid(b: Book) {
    && Valid(b.st)
    && (forall i :: 0 <= i < |b.live| ==> b.live[i].first + b.live[i].count <= Total(b.st))
    && (forall i, f: nat :: 0 <= i < |b.live| && Covers(b.live[i], f) ==> !Free(b.st, f))
    && (forall i, j :: 0 <= i < j < |b.live| ==> Disjoint(b.live[i], b.live[j]))
  }

  // A locked frame that no live run holds: never usable, or locked at initialization.
  predicate Reserved(b: Book, f: nat) {
    !Free(b.st, f) && !InLive(b.live, f)
  }

  function Held(live: seq<Run>): nat {
    if live == [] then 0 else Held(live[..|live| - 1]) + live[|live| - 1].count
  }

  // Releases are of granted runs only.
  function Apply(b: Book, op: Op): Book {
    match op
    case Ask(count) =>
      (match Request(b.st, count)
       case None => b
       case Some((n, st')) => Book(st', b.live + [Run(n, count)]))
    case GiveBack(i) =>
      if i < |b.live| then
        Book(Release(b.st, b.live[i].first, b.live[i].count), b.live[..i] + b.live[i + 1..])
      else b
  }

  function ApplyAll(b: Book, ops: seq<Op>): Book
    decreases |ops|
  {
    if ops == [] then b else ApplyAll(Apply(b, ops[0]), ops[1..])
  }

  lemma {:induction false} HeldWithout(live: seq<Run>, i: nat)
    requires i < |live|
    ensures Held(live) == Held(live[..i] + live[i + 1..]) + live[i].count
  {
    var rest := live[..i] + live[i + 1..];
    if i == |live| - 1 {
      assert rest == live[..i];
    } else {
      var front := live[..|live| - 1];
      HeldWithout(front, i);
      assert rest[..|rest| - 1] == front[..i] + front[i + 1..];
    }
  }

  // One step is accounted for exactly, and leaves the reserved frames alone.
  ghost predicate Conserves(b: Book, b': Book) {
    && b'.st.freeMemory + 0x1000 * Held(b'.live) == b.st.freeMemory + 0x1000 * Held(b.live)
    && forall f: nat :: Reserved(b', f) <==> Reserved(b, f)
  }

  lemma AskKeepsBook(b: Book, count: nat)
    requires BookValid(b)
    ensures BookValid(Apply(b, Ask(count))) && Conserves(b, Apply(b, Ask(count)))
  {
    RequestEffect(b.st, count);
    var b' := Apply(b, Ask(count));
    if Request(b.st, count).Some? {
      var r := Run(Request(b.st, count).value.0, count);
      assert b'.live[..|b'.live| - 1] == b.live && b'.live[|b.live|] == r;
      forall i | 0 <= i < |b.live|
        ensures Disjoint(b.live[i], r)
      {
        var q := b.live[i];
        var f: nat := if q.first <= r.first then r.first else q.first;
        assert Covers(q, f) ==> !Free(b.st, f);
      }
      forall i, f: nat | 0 <= i < |b'.live| && Covers(b'.live[i], f)
        ensures !Free(b'.st, f)
      {
        assert f < |b'.st.bits| ==> b'.st.bits[f] == (b.st.bits[f] || Covers(r, f));
        assert i < |b.live| ==> b'.live[i] == b.live[i] && !Free(b.st, f);
      }
      forall f: nat
        ensures Reserved(b', f) <==> Reserved(b, f)
      {
        if i :| 0 <= i < |b.live| && Covers(b.live[i], f) {
          assert b'.live[i] == b.live[i];
        }
        assert Free(b'.st, f) <==> Free(b.st, f) && !Covers(r, f);
      }
    }
  }

  lemma GiveBackKeepsBook(b: Book, i: nat)
    requires BookValid(b) && i < |b.live|
    ensures BookValid(Apply(b, GiveBack(i))) && Conserves(b, Apply(b, GiveBack(i)))
  {
    var r := b.live[i];
    var b' := Apply(b, GiveBack(i));
    assert Valid(b'.st) && Total(b'.st) == Total(b.st)
      && b'.st.freeMemory == b.st.freeMemory + 0x1000 * r.count by {
      assert forall k :: r.first <= k < r.first + r.count ==> Covers(r, k);
      ReleaseEffect(b.st, r.first, r.count);
    }
    forall j, f: nat | 0 <= j < |b'.live| && Covers(b'.live[j], f)
      ensures !Free(b'.st, f)
    {
      GiveBackKeepsLocked(b, i, Before(i, j), f);
    }
    WithoutRun(b, i, b'.live);
    HeldWithout(b.live, i);
    GiveBackKeepsReserved(b, i);
  }

  lemma WithoutRun(b: Book, i: nat, live: seq<Run>)
    requires BookValid(b) && i < |b.live| && live == b.live[..i] + b.live[i + 1..]
    ensures forall j :: 0 <= j < |live| ==> live[j].first + live[j].count <= Total(b.st)
    ensures forall j, k :: 0 <= j < k < |live| ==> Disjoint(live[j], live[k])
  {
    forall j, k | 0 <= j < k < |live|
      ensures Disjoint(live[j], live[k])
    {
      assert live[j] == b.live[Before(i, j)] && live[k] == b.live[Before(i, k)];
    }
  }

  lemma GiveBackKeepsLocked(b: Book, i: nat, j: nat, f: nat)
    requires BookValid(b) && i < |b.live| && j < |b.live| && i != j && Covers(b.live[j], f)
    ensures !Free(Release(b.st, b.live[i].first, b.live[i].count), f)
  {
    var r := b.live[i];
    assert forall k :: r.first <= k < r.first + r.count ==> Covers(r, k);
    ReleaseEffect(b.st, r.first, r.count);
    assert if j < i then Disjoint(b.live[j], r) else Disjoint(r, b.live[j]);
    assert f < |b.st.bits| && !Free(b.st, f);
    assert Release(b.st, r.first, r.count).bits[f];
  }

  // Where the j-th run was before run i was removed.
  function Before(i: nat, j: nat): nat {
    if j < i then j else j + 1
  }

  lemma GiveBackKeepsReserved(b: Book, i: nat)
    requires BookValid(b) && i < |b.live|
    ensures forall f: nat :: Reserved(Apply(b, GiveBack(i)), f) <==> Reserved(b, f)
  {
    var r := b.live[i];
    var b' := Apply(b, GiveBack(i));
    assert forall k :: r.first <= k < r.first + r.count ==> Covers(r, k);
    ReleaseEffect(b.st, r.first, r.count);
    forall f: nat
      ensures Reserved(b', f) <==> Reserved(b, f)
    {
      assert Free(b'.st, f) <==> Free(b.st, f) || Covers(r, f);
      if j :| 0 <= j < |b.live| && j != i && Covers(b.live[j], f) {
        assert b'.live[if j < i then j else j - 1] == b.live[j];
      }
      if j :| 0 <= j < |b'.live| && Covers(b'.live[j], f) {
        assert b.live[Before(i, j)] == b'.live[j];
      }
    }
  }

  // In every reachable state outstanding runs are disjoint and locked, the free and the held
  // bytes add up to the same amount, and the frames that belong to no one are always the same.
  lemma {:induction false} EveryRunKeepsBook(b: Book, ops: seq<Op>)
    requires BookValid(b)
    ensures BookValid(ApplyAll(b, ops)) && Conserves(b, ApplyAll(b, ops))
    decreases |ops|
  {
    if ops != [] {
      match ops[0] {
        case Ask(count) => AskKeepsBook(b, count);
        case GiveBack(i) => if i < |b.live| { GiveBackKeepsBook(b, i); }
      }
      EveryRunKeepsBook(Apply(b, ops[0]), ops[1..]);
    }
  }
}
