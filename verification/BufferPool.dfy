/** The write-back page cache (src/buffer_pool.c) over one file (src/file_io.c). */
module BufferPools {
  import opened Common

  const CACHE_PAGE := 8

  /** Every cached address sits in one frame, and `ref` is set exactly on the pinned ones. */
  ghost predicate FramesOk(addrs: seq<int>, ref: seq<nat>, length: nat, pinned: set<int>, frame: map<int, nat>) {
    && |addrs| == |ref| == CACHE_PAGE
    && (forall a :: a in frame ==> 0 <= frame[a] < CACHE_PAGE && addrs[frame[a]] == a)
    && (forall i :: 0 <= i < CACHE_PAGE && addrs[i] != -1 ==>
      0 <= addrs[i] < length && addrs[i] in frame && frame[addrs[i]] == i)
    && (forall i :: 0 <= i < CACHE_PAGE ==> ref[i] == if addrs[i] in pinned then 1 else 0)
    && pinned <= frame.Keys
    && -1 !in frame
  }

  /** The flat file: a cached page is the one in its frame, any other the one on disk. */
  ghost predicate Flat<P>(view: seq<P>, disk: seq<P>, length: nat, pages: seq<P>, frame: map<int, nat>) {
    && |view| == length <= |disk|
    && |pages| == CACHE_PAGE
    && (forall a :: a in frame ==> 0 <= a < length && frame[a] < CACHE_PAGE && view[a] == pages[frame[a]])
    && (forall a :: 0 <= a < length && a !in frame ==> view[a] == disk[a])
  }

  /** The ages `cnt` count the lookups since a frame was last asked for. */
  ghost predicate AgesOk(cnt: seq<nat>, frame: map<int, nat>, stamp: map<int, nat>, clock: nat) {
    && |cnt| == CACHE_PAGE
    && stamp.Keys == frame.Keys
    && (forall a :: a in stamp ==> frame[a] < CACHE_PAGE && stamp[a] < clock && cnt[frame[a]] == clock - stamp[a])
    && (forall a, b :: a in stamp && b in stamp && a != b ==> stamp[a] != stamp[b])
    && (forall i :: 0 <= i < CACHE_PAGE ==> cnt[i] >= 1)
  }

  // What reusing frame `k` for page `addr` does to each of the three.

  lemma TakenFrames(addrs: seq<int>, ref: seq<nat>, length: nat, pinned: set<int>, frame: map<int, nat>, k: nat,
      addr: nat, length': nat)
    requires FramesOk(addrs, ref, length, pinned, frame)
    requires k < CACHE_PAGE && ref[k] == 0 && addr !in frame && addr < length' && length <= length'
    ensures FramesOk(addrs[k := addr], ref[k := 1], length', pinned + {addr}, (frame - {addrs[k]})[addr := k])
  {
  }

  lemma TakenFlat<P>(view: seq<P>, disk: seq<P>, length: nat, pages: seq<P>, frame: map<int, nat>, k: nat, addr: nat,
      gone: int)
    requires Flat(view, disk, length, pages, frame)
    requires k < CACHE_PAGE && addr !in frame && addr <= length
    requires gone in frame ==> frame[gone] == k && disk[gone] == pages[k]
    requires forall a :: a in frame && a != gone ==> frame[a] != k
    ensures addr < length ==>
      view[addr] == disk[addr] && Flat(view, disk, length, pages[k := disk[addr]], (frame - {gone})[addr := k])
    ensures addr == length ==>
      Flat(view + [pages[k]], if addr == |disk| then disk + [pages[k]] else disk[addr := pages[k]], length + 1, pages,
        (frame - {gone})[addr := k])
  {
  }

  lemma TakenAges(cnt: seq<nat>, frame: map<int, nat>, stamp: map<int, nat>, clock: nat, k: nat, addr: int, gone: int)
    requires AgesOk(cnt, frame, stamp, clock)
    requires k < CACHE_PAGE && addr !in frame && clock > 0
    requires forall a :: a in frame && a != gone ==> frame[a] != k
    requires forall a :: a in stamp ==> stamp[a] < clock - 1
    ensures AgesOk(cnt[k := 1], (frame - {gone})[addr := k], (stamp - {gone})[addr := clock - 1], clock)
  {
  }

  // What one lookup of `addr` does to the reference bits and the ages.

  ghost function Marked(ref: seq<nat>, addrs: seq<int>, addr: int): seq<nat>
    requires |ref| == |addrs|
  {
    seq(|ref|, i requires 0 <= i < |ref| => if addrs[i] == addr then 1 else ref[i])
  }

  ghost function Aged(cnt: seq<nat>, addrs: seq<int>, addr: int): seq<nat>
    requires |cnt| == |addrs|
  {
    seq(|cnt|, i requires 0 <= i < |cnt| => if addrs[i] == addr then 1 else cnt[i] + 1)
  }

  lemma Looked(addrs: seq<int>, cnt: seq<nat>, ref: seq<nat>, length: nat, pinned: set<int>, frame: map<int, nat>,
               stamp: map<int, nat>, clock: nat, addr: nat)
    requires FramesOk(addrs, ref, length, pinned, frame) && AgesOk(cnt, frame, stamp, clock)
    ensures FramesOk(addrs, Marked(ref, addrs, addr), length, if addr in frame then pinned + {addr} else pinned, frame)
    ensures stamp.Keys == frame.Keys
    ensures AgesOk(Aged(cnt, addrs, addr), frame, if addr in frame then stamp[addr := clock] else stamp, clock + 1)
  {
  }

  ghost function Occupants(addrs: seq<int>): set<int> { set a | a in addrs }

  lemma {:induction false} OccupantCount(addrs: seq<int>)
    ensures |Occupants(addrs)| <= |addrs|
    ensures (forall i, j :: 0 <= i < j < |addrs| ==> addrs[i] != addrs[j]) ==> |Occupants(addrs)| == |addrs|
  {
    if addrs != [] {
      OccupantCount(addrs[1..]);
      assert Occupants(addrs) == Occupants(addrs[1..]) + {addrs[0]};
    }
  }

  lemma PinnedOccupants(addrs: seq<int>, ref: seq<nat>, length: nat, pinned: set<int>, frame: map<int, nat>)
    requires FramesOk(addrs, ref, length, pinned, frame)
    ensures pinned <= Occupants(addrs)
    ensures forall k :: 0 <= k < CACHE_PAGE && ref[k] == 0 ==> addrs[k] !in pinned
  {
    forall a | a in pinned ensures a in Occupants(addrs) {
      assert addrs[frame[a]] == a;
    }
  }

  /** With every frame pinned there are CACHE_PAGE pinned pages, and only then. */
  lemma PinnedCount(addrs: seq<int>, ref: seq<nat>, length: nat, pinned: set<int>, frame: map<int, nat>, k: int)
    requires FramesOk(addrs, ref, length, pinned, frame)
    requires k == -1 ==> forall i :: 0 <= i < CACHE_PAGE ==> addrs[i] != -1 && ref[i] != 0
    requires k != -1 ==> 0 <= k < CACHE_PAGE && ref[k] == 0
    ensures k == -1 ==> |pinned| == CACHE_PAGE
    ensures k != -1 ==> |pinned| < CACHE_PAGE
  {
    if k == -1 {
      AllPinned(addrs, ref, length, pinned, frame);
    } else {
      PinnedOccupants(addrs, ref, length, pinned, frame);
      SomeFree(addrs, pinned, k);
    }
  }

  lemma SomeFree(addrs: seq<int>, pinned: set<int>, k: nat)
    requires k < |addrs| && pinned <= Occupants(addrs) && addrs[k] !in pinned
    ensures |pinned| < |addrs|
  {
    OccupantCount(addrs);
    var all, a := Occupants(addrs), addrs[k];
    var rest := all - {a};
    assert |rest| == |all| - 1;
    var others := rest - pinned;
    assert rest == pinned + others && pinned !! others;
  }

  /** Without an empty frame as many pages are cached as there are frames. */
  lemma FullCache(addrs: seq<int>, ref: seq<nat>, length: nat, pinned: set<int>, frame: map<int, nat>)
    requires FramesOk(addrs, ref, length, pinned, frame)
    requires forall i :: 0 <= i < CACHE_PAGE ==> addrs[i] != -1
    ensures |Occupants(addrs)| == |frame| == CACHE_PAGE
  {
    forall i, j | 0 <= i < j < |addrs| ensures addrs[i] != addrs[j] {
      assert frame[addrs[i]] == i && frame[addrs[j]] == j;
    }
    OccupantCount(addrs);
    forall a | a in frame ensures a in Occupants(addrs) {
      assert addrs[frame[a]] == a;
    }
    assert frame.Keys == Occupants(addrs);
    assert |frame| == |frame.Keys|;
  }

  lemma AllPinned(addrs: seq<int>, ref: seq<nat>, length: nat, pinned: set<int>, frame: map<int, nat>)
    requires FramesOk(addrs, ref, length, pinned, frame)
    requires forall i :: 0 <= i < CACHE_PAGE ==> addrs[i] != -1 && ref[i] != 0
    ensures |pinned| == CACHE_PAGE
  {
    FullCache(addrs, ref, length, pinned, frame);
    PinnedOccupants(addrs, ref, length, pinned, frame);
    forall a | a in Occupants(addrs) ensures a in pinned {
      var i :| 0 <= i < |addrs| && addrs[i] == a;
      assert ref[i] == 1;
    }
    assert pinned == Occupants(addrs);
  }

  /** What one lookup, the `now`-th, does to the cached addresses and to the lookup that last
      asked for each.  At most one address leaves; it leaves only if the cache was full and it was
      not pinned, and of all that were not pinned it was the least recently asked for. */
  ghost predicate EvictsLeastRecent(before: map<int, nat>, pinned: set<int>, after: map<int, nat>, addr: int,
      now: nat) {
    && addr in after && after[addr] == now
    && (forall a :: a in after && a != addr ==> a in before && after[a] == before[a])
    && (forall a :: a in before && a !in after ==>
          && a !in pinned && |before| == CACHE_PAGE
          && after.Keys == before.Keys - {a} + {addr}
          && forall b :: b in before && b !in pinned && b != a ==> before[a] < before[b])
  }

  /** The last lookup that asked for the address, or -1. */
  ghost function LastOf(asked: seq<int>, a: int): int {
    if asked == [] then -1
    else if asked[|asked| - 1] == a then |asked| - 1
    else LastOf(asked[..|asked| - 1], a)
  }

  ghost predicate StampsOk(stamp: map<int, nat>, asked: seq<int>) {
    forall a :: a in stamp ==> stamp[a] == LastOf(asked, a)
  }

  lemma LastOfNext(asked: seq<int>, addr: int)
    ensures LastOf(asked + [addr], addr) == |asked|
    ensures forall a :: a != addr ==> LastOf(asked + [addr], a) == LastOf(asked, a)
  {
    assert (asked + [addr])[..|asked|] == asked;
  }

  lemma StampsNext(stamp: map<int, nat>, asked: seq<int>, addr: int)
    requires StampsOk(stamp, asked)
    ensures StampsOk(stamp[addr := |asked|], asked + [addr])
    ensures addr !in stamp ==> StampsOk(stamp, asked + [addr])
  {
    hide LastOf;
    LastOfNext(asked, addr);
  }

  lemma StampsTaken(stamp: map<int, nat>, asked: seq<int>, gone: int, addr: int)
    requires StampsOk(stamp, asked) && asked != [] && asked[|asked| - 1] == addr
    ensures StampsOk((stamp - {gone})[addr := |asked| - 1], asked)
  {
  }

  /** A page leaves only a full cache; it was not pinned, and of all cached pages that were not
      it is the one whose last lookup lies furthest back in the whole history. */
  ghost predicate OldestLeaves(asked: seq<int>, cached: set<int>, pinned: set<int>, cached': set<int>) {
    forall a :: a in cached && a !in cached' ==>
      && a !in pinned && |cached| == CACHE_PAGE
      && forall b :: b in cached && b !in pinned && b != a ==> LastOf(asked, a) < LastOf(asked, b)
  }

  lemma OldestByStamps(asked: seq<int>, stamp: map<int, nat>, pinned: set<int>, stamp': map<int, nat>, addr: int,
      now: nat)
    requires StampsOk(stamp, asked) && EvictsLeastRecent(stamp, pinned, stamp', addr, now)
    ensures OldestLeaves(asked, stamp.Keys, pinned, stamp'.Keys)
  {
  }

  /** Nothing leaves on a hit or when the lookup fails. */
  lemma NoneLeaves(asked: seq<int>, stamp: map<int, nat>, pinned: set<int>, addr: int, now: nat)
    ensures OldestLeaves(asked, stamp.Keys, pinned, stamp.Keys)
    ensures OldestLeaves(asked, stamp.Keys, pinned, stamp[addr := now].Keys)
    ensures EvictsLeastRecent(stamp, pinned, stamp[addr := now], addr, now)
  {
  }

  /** A file seen through eight frames.  `view` is what the file would hold if every page
      were written through at once; clients reason about `view` and `pinned` only. */
  class BufferPool<P(0)> {
    // FileInfo: the length counts pages; truncation shortens `length` but not the disk
    var length: nat
    var disk: seq<P>
    const pages: array<P>
    const addrs: array<int>
    const cnt: array<nat>
    const ref: array<nat>

    ghost var view: seq<P>
    ghost var pinned: set<int>
    // the frame of every cached address, the lookup that last asked for it, and the addresses
    // of all lookups since the file was opened
    ghost var frame: map<int, nat>
    ghost var stamp: map<int, nat>
    ghost var asked: seq<int>

    // everything a method may touch
    ghost const Repr: set<object>

    ghost predicate Shape() {
      && Repr == {this, pages, addrs, cnt, ref}
      && pages.Length == CACHE_PAGE && addrs.Length == CACHE_PAGE
      && cnt.Length == CACHE_PAGE && ref.Length == CACHE_PAGE
      && cnt != ref && addrs as object != cnt && addrs as object != ref
      && pages as object != addrs && pages as object != cnt && pages as object != ref
    }

    ghost predicate Valid()
      reads this, Repr
      ensures Valid() ==> this in Repr && |view| == length
    {
      && Shape()
      && FramesOk(addrs[..], ref[..], length, pinned, frame)
      && Flat(view, disk, length, pages[..], frame)
      && AgesOk(cnt[..], frame, stamp, |asked|)
      && StampsOk(stamp, asked)
    }
    /** The file on disk is no longer than the flat file: nothing was ever cut off. */
    ghost predicate Whole()
      reads this
    {
      |disk| == |view|
    }

    /** init_buffer_pool on a file that already holds `contents`. */
    constructor Open(contents: seq<P>)
      ensures Valid() && fresh(Repr) && Whole()
      ensures view == contents && pinned == {} && frame == map[] && asked == [] && stamp == map[]
    {
      length, disk := |contents|, contents;
      pages, addrs := new P[CACHE_PAGE], new int[CACHE_PAGE];
      cnt, ref := new nat[CACHE_PAGE], new nat[CACHE_PAGE];
      view, pinned, frame, stamp, asked := contents, {}, map[], map[], [];
      Repr := {this, pages, addrs, cnt, ref};
      new;
      for i := 0 to CACHE_PAGE
        modifies addrs, cnt, ref
        invariant forall j :: 0 <= j < i ==> addrs[j] == -1 && cnt[j] == 1 && ref[j] == 0
      {
        addrs[i] := -1;
        cnt[i] := 1;
        ref[i] := 0;
      }
    }
    /** First loop of get_page: age every frame and hit the one that holds `addr`. */
    method Touch(addr: nat) returns (k: int)
      requires Valid()
      modifies this`pinned, this`stamp, this`asked, cnt, ref
      ensures Valid() && asked == old(asked) + [addr]
      ensures if addr in frame then 0 <= k < CACHE_PAGE && addrs[k] == addr else k == -1
      ensures pinned == if k == -1 then old(pinned) else old(pinned) + {addr}
      ensures stamp == if k == -1 then old(stamp) else old(stamp)[addr := |old(asked)|]
    {
      hide FramesOk, Flat, AgesOk, StampsOk, LastOf, Marked, Aged;
      StampsNext(stamp, asked, addr);
      Looked(addrs[..], cnt[..], ref[..], length, pinned, frame, stamp, |asked|, addr);
      k := AgeAll(addr);
      FoundBy(k, addr);
      if k != -1 {
        pinned, stamp := pinned + {addr}, stamp[addr := |asked|];
      }
      asked := asked + [addr];
    }

    method AgeAll(addr: nat) returns (k: int)
      requires Shape()
      modifies cnt, ref
      ensures cnt[..] == Aged(old(cnt[..]), addrs[..], addr) && ref[..] == Marked(old(ref[..]), addrs[..], addr)
      ensures k == -1 <==> forall j :: 0 <= j < CACHE_PAGE ==> addrs[j] != addr
      ensures k != -1 ==> 0 <= k < CACHE_PAGE && addrs[k] == addr
    {
      k := -1;
      for i := 0 to CACHE_PAGE
        modifies cnt, ref
        invariant k == -1 <==> forall j :: 0 <= j < i ==> addrs[j] != addr
        invariant k != -1 ==> 0 <= k < CACHE_PAGE && addrs[k] == addr
        invariant forall j :: 0 <= j < i ==> cnt[j] == if addrs[j] == addr then 1 else old(cnt[j]) + 1
        invariant forall j :: 0 <= j < i ==> ref[j] == if addrs[j] == addr then 1 else old(ref[j])
        invariant forall j :: i <= j < CACHE_PAGE ==> cnt[j] == old(cnt[j]) && ref[j] == old(ref[j])
      {
        if addrs[i] == addr {
          k := i;
          ref[i] := 1;
          cnt[i] := 1;
        } else {
          cnt[i] := cnt[i] + 1;
        }
      }
    }

    lemma FoundBy(k: int, addr: nat)
      requires Shape()
      requires FramesOk(addrs[..], ref[..], length, if addr in frame then pinned + {addr} else pinned, frame)
      requires k == -1 <==> forall j :: 0 <= j < CACHE_PAGE ==> addrs[j] != addr
      requires k != -1 ==> 0 <= k < CACHE_PAGE && addrs[k] == addr
      ensures addr in frame <==> k != -1
    {
    }

    /** Second loop of get_page. */
    method FindEmpty() returns (k: int)
      requires Shape()
      ensures k == -1 ==> forall i :: 0 <= i < CACHE_PAGE ==> addrs[i] != -1
      ensures k != -1 ==> 0 <= k < CACHE_PAGE && addrs[k] == -1
      ensures k != -1 ==> forall i :: 0 <= i < k ==> addrs[i] != -1
    {
      k := -1;
      for i := 0 to CACHE_PAGE
        invariant k == -1 && forall j :: 0 <= j < i ==> addrs[j] != -1
      {
        if addrs[i] == -1 {
          return i;
        }
      }
    }

    /** Third loop of get_page: the oldest frame that is not pinned. */
    method FindVictim() returns (k: int)
      requires Shape()
      requires forall i :: 0 <= i < CACHE_PAGE ==> cnt[i] >= 1
      ensures k == -1 ==> forall i :: 0 <= i < CACHE_PAGE ==> ref[i] != 0
      ensures k != -1 ==> 0 <= k < CACHE_PAGE && ref[k] == 0
      ensures k != -1 ==> forall i :: 0 <= i < CACHE_PAGE && ref[i] == 0 ==> cnt[i] <= cnt[k]
    {
      var tmp := 0;
      k := -1;
      for i := 0 to CACHE_PAGE
        invariant k == -1 ==> tmp == 0 && forall j :: 0 <= j < i ==> ref[j] != 0
        invariant k != -1 ==> 0 <= k < i && ref[k] == 0 && tmp == cnt[k]
        invariant k != -1 ==> forall j :: 0 <= j < i && ref[j] == 0 ==> cnt[j] <= tmp
      {
        if ref[i] == 0 {
          if cnt[i] > tmp {
            tmp := cnt[i];
            k := i;
          }
        }
      }
    }

    /** The frame that get_page takes on a miss: an empty one, else the least recently
        requested unpinned one, else none because all eight are pinned. */
    method ChooseFrame() returns (k: int)
      requires Valid()
      ensures k == -1 ==> |pinned| == CACHE_PAGE
      ensures k != -1 ==> 0 <= k < CACHE_PAGE && |pinned| < CACHE_PAGE && ref[k] == 0
      ensures k != -1 && addrs[k] != -1 ==>
        && addrs[k] !in pinned && |stamp| == CACHE_PAGE
        && forall b :: b in stamp && b !in pinned && b != addrs[k] ==> stamp[addrs[k]] < stamp[b]
      ensures k != -1 && addrs[k] == -1 ==> forall i :: 0 <= i < k ==> addrs[i] != -1
    {
      k := FindEmpty();
      if k == -1 {
        k := FindVictim();
      }
      PinnedCount(addrs[..], ref[..], length, pinned, frame, k);
      if forall i :: 0 <= i < CACHE_PAGE ==> addrs[i] != -1 {
        FullCache(addrs[..], ref[..], length, pinned, frame);
        assert stamp.Keys == frame.Keys;
        assert |stamp| == |stamp.Keys| == |frame.Keys| == |frame|;
      }
    }

    /** get_page.  The result is the content of the frame, which is the page of the flat file;
        a page just past the end is appended with whatever the frame held.  None stands for
        the NULL results: an address past the end, or every frame pinned by another page. */
    method GetPage(addr: nat) returns (r: Option<P>)
      requires Valid()
      modifies Repr
      ensures Valid()
      ensures r.None? <==> old(length) < addr || (addr !in old(frame) && |old(pinned)| == CACHE_PAGE)
      ensures r.None? ==> view == old(view) && pinned == old(pinned) && stamp == old(stamp)
      ensures r.Some? ==> pinned == old(pinned) + {addr}
      ensures r.Some? ==> addr < |view| && r.value == view[addr]
      ensures r.Some? ==> view == if addr < |old(view)| then old(view) else old(view) + [r.value]
      ensures r.Some? ==> EvictsLeastRecent(old(stamp), old(pinned), stamp, addr, |old(asked)|)
      ensures old(Whole()) ==> Whole()
      ensures asked == if addr <= |old(view)| then old(asked) + [addr] else old(asked)
      ensures OldestLeaves(old(asked), old(stamp).Keys, old(pinned), stamp.Keys)
    {
      hide FramesOk, Flat, AgesOk, StampsOk, EvictsLeastRecent, OldestLeaves, LastOf;
      NoneLeaves(asked, stamp, pinned, addr, |asked|);
      Earlier();
      if length < addr {
        return None;
      }
      ghost var asked0, stamp0, pinned0 := asked, stamp, pinned;
      var k := Touch(addr);
      if 0 <= k < CACHE_PAGE {
        Lookups(k);
        return Some(pages[k]);
      }
      r := Load(addr);
      if r.Some? {
        OldestByStamps(asked0, stamp0, pinned0, stamp, addr, |asked0|);
      }
    }

    lemma Earlier()
      requires Valid()
      ensures forall a :: a in stamp ==> stamp[a] < |asked|
    {
    }

    /** get_page on a miss. */
    method Load(addr: nat) returns (r: Option<P>)
      requires Valid() && addr <= length && addr !in frame
      requires asked != [] && asked[|asked| - 1] == addr && forall a :: a in stamp ==> stamp[a] < |asked| - 1
      modifies Repr
      ensures Valid()
      ensures r.None? <==> |old(pinned)| == CACHE_PAGE
      ensures r.None? ==> view == old(view) && pinned == old(pinned) && stamp == old(stamp)
      ensures r.Some? ==> pinned == old(pinned) + {addr}
      ensures r.Some? ==> addr < |view| && r.value == view[addr]
      ensures r.Some? ==> view == if addr < |old(view)| then old(view) else old(view) + [r.value]
      ensures r.Some? ==> EvictsLeastRecent(old(stamp), old(pinned), stamp, addr, |old(asked)| - 1)
      ensures old(Whole()) ==> Whole()
      ensures asked == old(asked)
    {
      hide FramesOk, Flat, AgesOk;
      var k := ChooseFrame();
      if 0 <= k < CACHE_PAGE {
        Lookups(k);
        WriteBack(k);
        TakeFrame(k, addr);
        r := Some(pages[k]);
      } else {
        r := None;
      }
    }

    /** write_page of a victim before its frame is reused. */
    method WriteBack(k: nat)
      requires Valid() && k < CACHE_PAGE
      modifies this`disk
      ensures Valid()
      ensures addrs[k] != -1 ==> disk[addrs[k]] == pages[k]
      ensures |disk| == |old(disk)|
    {
      if addrs[k] != -1 {
        disk := disk[addrs[k] := pages[k]];
      }
    }

    lemma Lookups(k: nat)
      requires Valid() && k < CACHE_PAGE
      ensures |view| == length <= |disk| && -1 !in frame && stamp.Keys == frame.Keys
      ensures addrs[k] in frame ==> frame[addrs[k]] == k
      ensures forall a :: a in frame && a != addrs[k] ==> frame[a] != k
      ensures addrs[k] != -1 ==> addrs[k] in frame && 0 <= addrs[k] < length && view[addrs[k]] == pages[k]
    {
    }

    /** The tail of get_page: fill frame `k`, whose page is already on disk, with page `addr`. */
    method TakeFrame(k: nat, addr: nat)
      requires k < CACHE_PAGE && addr <= length && addr !in frame
      requires Valid()
      requires ref[k] == 0 && (addrs[k] != -1 ==> disk[addrs[k]] == pages[k])
      requires asked != [] && asked[|asked| - 1] == addr && forall a :: a in stamp ==> stamp[a] < |asked| - 1
      modifies Repr
      ensures Valid() && asked == old(asked) && addrs[k] == addr && length >= old(length)
      ensures pinned == old(pinned) + {addr}
      ensures addr < |view| && view[addr] == pages[k]
      ensures view == if addr < |old(view)| then old(view) else old(view) + [pages[k]]
      ensures stamp == (old(stamp) - {old(addrs[k])})[addr := |asked| - 1]
      ensures old(Whole()) ==> Whole()
    {
      hide FramesOk, Flat, AgesOk, EvictsLeastRecent;
      if length == addr {
        TakeNew(k, addr);
      } else {
        TakeOld(k, addr);
      }
    }

    /** The fields of a frame that is taken. */
    method Seat(k: nat, addr: nat)
      requires Shape() && k < CACHE_PAGE
      modifies addrs, cnt, ref
      ensures cnt[..] == old(cnt[..])[k := 1] && ref[..] == old(ref[..])[k := 1]
        && addrs[..] == old(addrs[..])[k := addr]
    {
      cnt[k] := 1;
      ref[k] := 1;
      addrs[k] := addr;
    }

    /** The branch of a page just past the end. */
    method TakeNew(k: nat, addr: nat)
      requires k < CACHE_PAGE && addr == length && addr !in frame
      requires Valid()
      requires ref[k] == 0 && (addrs[k] != -1 ==> disk[addrs[k]] == pages[k])
      requires asked != [] && asked[|asked| - 1] == addr && forall a :: a in stamp ==> stamp[a] < |asked| - 1
      modifies this, addrs, cnt, ref
      ensures Valid() && asked == old(asked) && addrs[k] == addr && length == old(length) + 1
      ensures pinned == old(pinned) + {addr} && view == old(view) + [pages[k]]
      ensures stamp == (old(stamp) - {old(addrs[k])})[addr := |asked| - 1]
      ensures old(Whole()) ==> Whole()
    {
      hide FramesOk, Flat, AgesOk, StampsOk, LastOf;
      Lookups(k);
      ghost var gone := addrs[k];
      StampsTaken(stamp, asked, gone, addr);
      TakenFrames(addrs[..], ref[..], length, pinned, frame, k, addr, length + 1);
      TakenFlat(view, disk, length, pages[..], frame, k, addr, gone);
      TakenAges(cnt[..], frame, stamp, |asked|, k, addr, gone);
      Seat(k, addr);
      disk := if addr == |disk| then disk + [pages[k]] else disk[addr := pages[k]];
      length := length + 1;
      view := view + [pages[k]];
      pinned := pinned + {addr};
      frame := (frame - {gone})[addr := k];
      stamp := (stamp - {gone})[addr := |asked| - 1];
    }

    /** The branch of a page of the file. */
    method TakeOld(k: nat, addr: nat)
      requires k < CACHE_PAGE && addr < length && addr !in frame
      requires Valid()
      requires ref[k] == 0 && (addrs[k] != -1 ==> disk[addrs[k]] == pages[k])
      requires asked != [] && asked[|asked| - 1] == addr && forall a :: a in stamp ==> stamp[a] < |asked| - 1
      modifies this`pinned, this`frame, this`stamp, pages, addrs, cnt, ref
      ensures Valid() && addrs[k] == addr && view[addr] == pages[k]
      ensures pinned == old(pinned) + {addr}
      ensures stamp == (old(stamp) - {old(addrs[k])})[addr := |asked| - 1]
      ensures asked == old(asked)
    {
      hide FramesOk, Flat, AgesOk, StampsOk, LastOf;
      Lookups(k);
      ghost var gone := addrs[k];
      StampsTaken(stamp, asked, gone, addr);
      TakenFrames(addrs[..], ref[..], length, pinned, frame, k, addr, length);
      TakenFlat(view, disk, length, pages[..], frame, k, addr, gone);
      TakenAges(cnt[..], frame, stamp, |asked|, k, addr, gone);
      Seat(k, addr);
      pages[k] := disk[addr];
      pinned := pinned + {addr};
      frame := (frame - {gone})[addr := k];
      stamp := (stamp - {gone})[addr := |asked| - 1];
      assert pages[..] == old(pages[..])[k := disk[addr]];
    }

    /** The first frame that holds `addr`, or CACHE_PAGE: the search loop of release and of
        the two truncations. */
    method FindFrame(addr: nat) returns (i: nat)
      requires Shape()
      ensures i <= CACHE_PAGE && (i < CACHE_PAGE ==> addrs[i] == addr)
      ensures i == CACHE_PAGE ==> forall j :: 0 <= j < CACHE_PAGE ==> addrs[j] != addr
    {
      i := 0;
      while i < CACHE_PAGE
        invariant i <= CACHE_PAGE && forall j :: 0 <= j < i ==> addrs[j] != addr
      {
        if addrs[i] == addr {
          break;
        }
        i := i + 1;
      }
    }

    /** release: clears the one-bit pin, however many times the page was asked for. */
    method Release(addr: nat)
      requires Valid()
      modifies Repr
      ensures Valid() && view == old(view) && pinned == old(pinned) - {addr}
      ensures old(Whole()) ==> Whole()
      ensures asked == old(asked) && stamp == old(stamp)
    {
      hide Flat, AgesOk;
      var i := FindFrame(addr);
      if i < CACHE_PAGE {
        ref[i] := 0;
        pinned := pinned - {addr};
        assert ref[..] == old(ref[..])[i := 0];
      }
    }

    /** A write through the pointer that get_page returned. */
    method Put(addr: nat, p: P)
      requires Valid() && addr in pinned
      modifies Repr
      ensures Valid() && addr < |old(view)| && view == old(view)[addr := p] && pinned == old(pinned)
      ensures old(Whole()) ==> Whole()
      ensures asked == old(asked) && stamp == old(stamp)
    {
      hide AgesOk;
      var k := FindFrame(addr);
      if k < CACHE_PAGE {
        pages[k] := p;
        view := view[addr := p];
        assert pages[..] == old(pages[..])[k := p];
      }
    }

    /** The truncation that release_new_BNode and the hash map write out: forget the frame of
        the last page and shorten the file.  The disk keeps its old length. */
    method DropLast(addr: nat)
      requires Valid() && addr + 1 == |view|
      modifies Repr
      ensures Valid() && view == old(view)[..addr] && pinned == old(pinned) - {addr}
      ensures asked == old(asked) && stamp == old(stamp) - {addr}
    {
      hide FramesOk, Flat, AgesOk;
      var j := FindFrame(addr);
      Dropped(j, addr);
      if j < CACHE_PAGE {
        addrs[j] := -1;
        cnt[j] := 1;
        ref[j] := 0;
        assert addrs[..] == old(addrs[..])[j := -1] && ref[..] == old(ref[..])[j := 0]
          && cnt[..] == old(cnt[..])[j := 1];
      }
      length := length - 1;
      view, pinned, frame, stamp := view[..addr], pinned - {addr}, frame - {addr}, stamp - {addr};
    }

    lemma Dropped(j: nat, addr: nat)
      requires Valid() && addr + 1 == length
      requires j <= CACHE_PAGE && (j < CACHE_PAGE ==> addrs[j] == addr)
      requires j == CACHE_PAGE ==> forall i :: 0 <= i < CACHE_PAGE ==> addrs[i] != addr
      ensures |view| == length
      ensures
        var addrs', ref', cnt' :=
          if j < CACHE_PAGE then addrs[..][j := -1] else addrs[..],
          if j < CACHE_PAGE then ref[..][j := 0] else ref[..],
          if j < CACHE_PAGE then cnt[..][j := 1] else cnt[..];
        && FramesOk(addrs', ref', addr, pinned - {addr}, frame - {addr})
        && Flat(view[..addr], disk, addr, pages[..], frame - {addr})
        && AgesOk(cnt', frame - {addr}, stamp - {addr}, |asked|)
    {
      assert addr in frame ==> addrs[frame[addr]] == addr;
    }

    /** close_buffer_pool: writes every occupied frame back.  Opening the file again shows the
        flat file on every page below the closing length. */
    method Close()
      requires Valid()
      modifies this`disk
      ensures |disk| == |old(disk)| >= |view| && disk[..|view|] == view
    {
      ghost var n := length;
      for i := 0 to CACHE_PAGE
        modifies this`disk
        invariant |disk| == |old(disk)|
        invariant forall a :: 0 <= a < n && a !in frame ==> disk[a] == view[a]
        invariant forall a :: a in frame && frame[a] < i ==> disk[a] == view[a]
      {
        hide AgesOk;
        if addrs[i] >= 0 {
          disk := disk[addrs[i] := pages[i]];
        }
      }
    }

    /** get_page as every caller uses it, without a test for NULL. */
    method Fetch(addr: nat) returns (p: P)
      requires Valid() && addr <= |view| && |pinned| < CACHE_PAGE
      modifies Repr
      ensures Valid() && pinned == old(pinned) + {addr}
      ensures addr < |view| && p == view[addr]
      ensures view == if addr < |old(view)| then old(view) else old(view) + [p]
      ensures old(Whole()) ==> Whole()
      ensures asked == old(asked) + [addr]
      ensures OldestLeaves(old(asked), old(stamp).Keys, old(pinned), stamp.Keys)
    {
      Lookups(0);
      var r := GetPage(addr);
      p := r.value;
    }
  }
}
