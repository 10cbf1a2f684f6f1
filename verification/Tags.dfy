/** The request-tag allocator: expiring slots, a mask of used tags and a round-robin cursor. */
module Tags {
  import opened Basics

  /** `MCTP_TAG_TIMEOUT`, in milliseconds */
  const TAG_TIMEOUT := 6000
  const UINT64_LIMIT := 0x1_0000_0000_0000_0000

  /** An entry of `req_tags`; local 0 is an unused entry. */
  datatype ReqTag = ReqTag(local: Byte, remote: Byte, tag: Tag, expiry: nat)

  datatype TagState = TagState(slots: seq<ReqTag>, cursor: Tag)

  const UNUSED := ReqTag(0, 0, 0, 0)

  predicate Live(e: ReqTag, now: nat) {
    e.local != 0 && e.expiry >= now
  }

  predicate Matches(e: ReqTag, local: Byte, remote: Byte, tag: Tag) {
    e.local == local && e.remote == remote && e.tag == tag
  }

  /** The tag is held, unexpired, by one of the first `n` slots. */
  predicate InUse(slots: seq<ReqTag>, n: nat, local: Byte, remote: Byte, tag: Tag, now: nat)
    requires n <= |slots|
  {
    exists i :: 0 <= i < n && Live(slots[i], now) && Matches(slots[i], local, remote, tag)
  }

  /** The last of the first `n` slots that is not live, or -1. */
  function Spare(slots: seq<ReqTag>, n: nat, now: nat): (i: int)
    requires n <= |slots|
    ensures -1 <= i < n
    ensures i >= 0 ==> !Live(slots[i], now)
    ensures i == -1 ==> forall j :: 0 <= j < n ==> Live(slots[j], now)
  {
    if n == 0 then -1 else if !Live(slots[n - 1], now) then n - 1 else Spare(slots, n - 1, now)
  }

  function Turn(cursor: Tag, d: nat): Tag
    requires d < 8
  {
    if cursor + d < 8 then cursor + d else cursor + d - 8
  }

  lemma TurnIsMod(cursor: Tag, d: nat)
    requires d < 8
    ensures (d + cursor) % 8 == Turn(cursor, d) == (cursor + d) % 8
  {
  }

  /** How many steps after the cursor a tag comes. */
  function Distance(cursor: Tag, tag: Tag): (d: nat)
    ensures d < 8 && Turn(cursor, d) == tag
  {
    if tag >= cursor then tag - cursor else tag + 8 - cursor
  }

  /** The first tag from `d` steps after the cursor on that the pair does not use; its distance,
      or 8. */
  function Pick(s: TagState, local: Byte, remote: Byte, now: nat, d: nat): (r: nat)
    requires d <= 8
    ensures d <= r <= 8
    ensures r < 8 ==> !InUse(s.slots, |s.slots|, local, remote, Turn(s.cursor, r), now)
    decreases 8 - d
  {
    if d == 8 || !InUse(s.slots, |s.slots|, local, remote, Turn(s.cursor, d), now) then d
    else Pick(s, local, remote, now, d + 1)
  }

  datatype AllocResult = AllocResult(s: TagState, tag: Option<Tag>)

  /** mctp_alloc_tag */
  function Alloc(s: TagState, local: Byte, remote: Byte, now: nat): AllocResult {
    var i := Spare(s.slots, |s.slots|, now);
    var d := Pick(s, local, remote, now, 0);
    if i == -1 || d == 8 then AllocResult(s, None) else
      var tag := Turn(s.cursor, d);
      var e := ReqTag(local, remote, tag, (now + TAG_TIMEOUT) % UINT64_LIMIT);
      AllocResult(TagState(s.slots[i := e], Turn(tag, 1)), Some(tag))
  }

  /** The first slot, live or not, that matches; |slots| when there is none. */
  function FirstMatch(slots: seq<ReqTag>, local: Byte, remote: Byte, tag: Tag, i: nat): (r: nat)
    requires i <= |slots|
    ensures i <= r <= |slots|
    ensures r < |slots| ==> Matches(slots[r], local, remote, tag)
    ensures forall j :: i <= j < r ==> !Matches(slots[j], local, remote, tag)
    decreases |slots| - i
  {
    if i == |slots| || Matches(slots[i], local, remote, tag) then i
    else FirstMatch(slots, local, remote, tag, i + 1)
  }

  /** mctp_dealloc_tag */
  function Dealloc(s: TagState, local: Byte, remote: Byte, tag: Tag): TagState {
    var i := FirstMatch(s.slots, local, remote, tag, 0);
    if local == 0 || i == |s.slots| then s else s.(slots := s.slots[i := UNUSED])
  }

  // ---------------------------------------------------------------------------------------
  // Completeness
  // ---------------------------------------------------------------------------------------

  lemma {:induction false} PickSkipsUsed(s: TagState, local: Byte, remote: Byte, now: nat, d: nat, x: nat)
    requires d <= 8 && d <= x < Pick(s, local, remote, now, d)
    ensures InUse(s.slots, |s.slots|, local, remote, Turn(s.cursor, x), now)
    decreases 8 - d
  {
    if x > d { PickSkipsUsed(s, local, remote, now, d + 1, x); }
  }

  /** Allocation fails if and only if every slot is live or the pair has all eight tags in use,
      and then changes nothing. */
  lemma {:induction false} AllocFails(s: TagState, local: Byte, remote: Byte, now: nat)
    ensures Alloc(s, local, remote, now).tag.None? <==>
              || (forall i :: 0 <= i < |s.slots| ==> Live(s.slots[i], now))
              || (forall t: Tag :: InUse(s.slots, |s.slots|, local, remote, t, now))
    ensures Alloc(s, local, remote, now).tag.None? ==> Alloc(s, local, remote, now).s == s
  {
    var i := Spare(s.slots, |s.slots|, now);
    var d := Pick(s, local, remote, now, 0);
    if d == 8 {
      forall t: Tag ensures InUse(s.slots, |s.slots|, local, remote, t, now) {
        PickSkipsUsed(s, local, remote, now, 0, Distance(s.cursor, t));
      }
    } else {
      assert !InUse(s.slots, |s.slots|, local, remote, Turn(s.cursor, d), now);
    }
  }

  /** A successful allocation issues a tag the pair did not use, and puts it in a slot that was
      not live. */
  lemma AllocIssues(s: TagState, local: Byte, remote: Byte, now: nat)
    requires Alloc(s, local, remote, now).tag.Some? && local != 0
    ensures var r := Alloc(s, local, remote, now);
            && !InUse(s.slots, |s.slots|, local, remote, r.tag.value, now)
            && (now + TAG_TIMEOUT < UINT64_LIMIT ==> InUse(r.s.slots, |r.s.slots|, local, remote, r.tag.value, now))
            && (forall i :: 0 <= i < |s.slots| && Live(s.slots[i], now) ==> r.s.slots[i] == s.slots[i])
  {
    var r := Alloc(s, local, remote, now);
    var i := Spare(s.slots, |s.slots|, now);
    assert Matches(r.s.slots[i], local, remote, r.tag.value);
  }

  /** Nothing else comes into use or goes out of it: from the time of the allocation on,
      every other tag of any pair is in use exactly if it was before. */
  lemma AllocKeepsOthers(s: TagState, local: Byte, remote: Byte, at: nat, l: Byte, r: Byte, t: Tag, now: nat)
    requires at <= now
    requires l != local || r != remote || Alloc(s, local, remote, at).tag != Some(t)
    ensures var slots := Alloc(s, local, remote, at).s.slots;
            InUse(slots, |slots|, l, r, t, now) <==> InUse(s.slots, |s.slots|, l, r, t, now)
  {
    var slots := Alloc(s, local, remote, at).s.slots;
    if InUse(s.slots, |s.slots|, l, r, t, now) {
      var i :| 0 <= i < |s.slots| && Live(s.slots[i], now) && Matches(s.slots[i], l, r, t);
      assert slots[i] == s.slots[i];
    }
    if InUse(slots, |slots|, l, r, t, now) {
      var i :| 0 <= i < |slots| && Live(slots[i], now) && Matches(slots[i], l, r, t);
      assert slots[i] == s.slots[i];
    }
  }

  // ---------------------------------------------------------------------------------------
  // Uniqueness over whole runs
  // ---------------------------------------------------------------------------------------

  /** No two live slots hold the same tag for the same pair. */
  predicate Unique(slots: seq<ReqTag>, now: nat) {
    forall i, j :: 0 <= i < j < |slots| && Live(slots[i], now) && Live(slots[j], now) ==>
      !Matches(slots[j], slots[i].local, slots[i].remote, slots[i].tag)
  }

  datatype Event =
    | Allocate(now: nat, local: Byte, remote: Byte)
    | Release(now: nat, local: Byte, remote: Byte, tag: Tag)

  function Step(s: TagState, e: Event): TagState {
    match e
    case Allocate(now, local, remote) => Alloc(s, local, remote, now).s
    case Release(_, local, remote, tag) => Dealloc(s, local, remote, tag)
  }

  function Run(s: TagState, es: seq<Event>): TagState {
    if es == [] then s else Step(Run(s, es[..|es| - 1]), es[|es| - 1])
  }

  /** The clock never goes back, and the run ends by `now`. */
  predicate Timely(es: seq<Event>, now: nat) {
    es != [] ==> es[|es| - 1].now <= now && Timely(es[..|es| - 1], es[|es| - 1].now)
  }

  lemma UniqueLater(slots: seq<ReqTag>, now: nat, later: nat)
    requires Unique(slots, now) && now <= later
    ensures Unique(slots, later)
  {
  }

  lemma UniqueStep(s: TagState, e: Event)
    requires Unique(s.slots, e.now)
    ensures Unique(Step(s, e).slots, e.now)
  {
    match e
    case Allocate(now, local, remote) =>
      var r := Alloc(s, local, remote, now);
      if r.tag.Some? {
        var i := Spare(s.slots, |s.slots|, now);
        forall j | 0 <= j < |s.slots| && j != i && Live(s.slots[j], now)
          ensures !Matches(s.slots[j], local, remote, r.tag.value)
        {
          assert !InUse(s.slots, |s.slots|, local, remote, r.tag.value, now);
        }
      }
    case Release(_, local, remote, tag) =>
  }

  /** Live tag uniqueness: under a clock that never goes back, after any run of allocations and
      releases, no two live slots share local, remote and tag. */
  lemma {:induction false} RunUnique(s: TagState, es: seq<Event>, start: nat, now: nat)
    requires Unique(s.slots, start) && start <= (if es == [] then now else es[0].now) && Timely(es, now)
    ensures Unique(Run(s, es).slots, now)
  {
    if es == [] {
      UniqueLater(s.slots, start, now);
    } else {
      var init, e := es[..|es| - 1], es[|es| - 1];
      RunUnique(s, init, start, e.now);
      UniqueStep(Run(s, init), e);
      UniqueLater(Step(Run(s, init), e).slots, e.now, now);
    }
  }

  /** How many of the first `n` slots are live and belong to the pair. */
  function LiveCount(slots: seq<ReqTag>, n: nat, local: Byte, remote: Byte, now: nat): nat
    requires n <= |slots|
  {
    if n == 0 then 0 else
      var e := slots[n - 1];
      LiveCount(slots, n - 1, local, remote, now)
      + if Live(e, now) && e.local == local && e.remote == remote then 1 else 0
  }

  /** How many of the first `n` entries hold. */
  function Trues(bs: seq<bool>, n: nat): (c: nat)
    requires n <= |bs|
    ensures c <= n
  {
    if n == 0 then 0 else Trues(bs, n - 1) + if bs[n - 1] then 1 else 0
  }

  lemma {:induction false} TruesUpdate(bs: seq<bool>, n: nat, i: nat)
    requires n <= |bs| && i < |bs| && !bs[i]
    ensures Trues(bs[i := true], n) == Trues(bs, n) + if i < n then 1 else 0
  {
    if n > 0 { TruesUpdate(bs, n - 1, i); }
  }

  /** Which tags the pair holds live in the first `n` slots. */
  function TagsHeld(slots: seq<ReqTag>, n: nat, local: Byte, remote: Byte, now: nat): (bs: seq<bool>)
    requires n <= |slots|
    ensures |bs| == 8
  {
    if n == 0 then [false, false, false, false, false, false, false, false] else
      var e, bs := slots[n - 1], TagsHeld(slots, n - 1, local, remote, now);
      if Live(e, now) && e.local == local && e.remote == remote then bs[e.tag := true] else bs
  }

  lemma {:induction false} HeldMeansInUse(slots: seq<ReqTag>, n: nat, local: Byte, remote: Byte, now: nat, tag: Tag)
    requires n <= |slots| && TagsHeld(slots, n, local, remote, now)[tag]
    ensures InUse(slots, n, local, remote, tag, now)
  {
    if n > 0 {
      var e := slots[n - 1];
      if Live(e, now) && Matches(e, local, remote, tag) {
      } else {
        HeldMeansInUse(slots, n - 1, local, remote, now, tag);
      }
    }
  }

  /** Each live slot of the pair accounts for a tag of its own. */
  lemma {:induction false} OneTagEach(slots: seq<ReqTag>, n: nat, local: Byte, remote: Byte, now: nat)
    requires n <= |slots| && Unique(slots, now)
    ensures LiveCount(slots, n, local, remote, now) == Trues(TagsHeld(slots, n, local, remote, now), 8)
  {
    if n == 0 {
      NoTrues();
    } else {
      OneTagEach(slots, n - 1, local, remote, now);
      var e, bs := slots[n - 1], TagsHeld(slots, n - 1, local, remote, now);
      if Live(e, now) && e.local == local && e.remote == remote {
        if bs[e.tag] {
          HeldMeansInUse(slots, n - 1, local, remote, now, e.tag);
          assert false;
        }
        TruesUpdate(bs, 8, e.tag);
      }
    }
  }

  lemma NoTrues()
    ensures Trues([false, false, false, false, false, false, false, false], 8) == 0
  {
  }

  /** Pigeonhole: any pair has at most eight live tags. */
  lemma AtMostEight(slots: seq<ReqTag>, local: Byte, remote: Byte, now: nat)
    requires Unique(slots, now)
    ensures LiveCount(slots, |slots|, local, remote, now) <= 8
  {
    OneTagEach(slots, |slots|, local, remote, now);
  }

  // ---------------------------------------------------------------------------------------
  // Fairness
  // ---------------------------------------------------------------------------------------

  /** The tags issued by the successful allocations of a run. */
  function Issued(s: TagState, es: seq<Event>): seq<Tag> {
    if es == [] then [] else
      var e := es[|es| - 1];
      var before := Run(s, es[..|es| - 1]);
      Issued(s, es[..|es| - 1])
      + if e.Allocate? && Alloc(before, e.local, e.remote, e.now).tag.Some?
        then [Alloc(before, e.local, e.remote, e.now).tag.value] else []
  }

  /** All allocations are for one pair; releases may be for any. */
  predicate AllFor(es: seq<Event>, local: Byte, remote: Byte) {
    forall i :: 0 <= i < |es| && es[i].Allocate? ==> es[i].local == local && es[i].remote == remote
  }

  /** An allocation that passes over a free tag brings the cursor closer to it. */
  lemma AllocApproaches(s: TagState, local: Byte, remote: Byte, now: nat, tag: Tag)
    requires !InUse(s.slots, |s.slots|, local, remote, tag, now)
    ensures var r := Alloc(s, local, remote, now);
            r.tag.Some? && r.tag.value != tag ==> Distance(r.s.cursor, tag) < Distance(s.cursor, tag)
  {
    var d := Pick(s, local, remote, now, 0);
    if d > Distance(s.cursor, tag) {
      PickSkipsUsed(s, local, remote, now, 0, Distance(s.cursor, tag));
      assert false;
    }
  }

  function FirstEight(tags: seq<Tag>): seq<Tag> {
    if |tags| <= 8 then tags else tags[..8]
  }

  lemma FirstEightSnoc(tags: seq<Tag>, t: Tag, x: Tag)
    ensures x in FirstEight(tags) ==> x in FirstEight(tags + [t])
    ensures |tags| < 8 ==> t in FirstEight(tags + [t])
  {
    if |tags| >= 8 { assert (tags + [t])[..8] == tags[..8]; }
  }

  lemma FreeLater(slots: seq<ReqTag>, local: Byte, remote: Byte, tag: Tag, now: nat, later: nat)
    requires !InUse(slots, |slots|, local, remote, tag, now) && now <= later
    ensures !InUse(slots, |slots|, local, remote, tag, later)
  {
  }

  /** A tag comes into use only by being issued. */
  lemma FreeUntilIssued(s: TagState, e: Event, local: Byte, remote: Byte, tag: Tag)
    requires !InUse(s.slots, |s.slots|, local, remote, tag, e.now)
    requires e.Allocate? ==> Alloc(s, e.local, e.remote, e.now).tag != Some(tag)
    ensures var slots := Step(s, e).slots; !InUse(slots, |slots|, local, remote, tag, e.now)
  {
    var slots := Step(s, e).slots;
    forall i | 0 <= i < |slots| ensures !(Live(slots[i], e.now) && Matches(slots[i], local, remote, tag)) {
      if slots[i] == s.slots[i] {
        assert !(Live(s.slots[i], e.now) && Matches(s.slots[i], local, remote, tag));
      }
    }
  }

  /** The tag was issued early in the run, or it is still free and every allocation brought the
      cursor closer. */
  predicate Approaching(s: TagState, es: seq<Event>, local: Byte, remote: Byte, tag: Tag, now: nat) {
    var u := Run(s, es);
    || tag in FirstEight(Issued(s, es))
    || (&& !InUse(u.slots, |u.slots|, local, remote, tag, now)
        && Distance(u.cursor, tag) + |Issued(s, es)| <= Distance(s.cursor, tag))
  }

  lemma {:induction false} CursorApproaches(s: TagState, es: seq<Event>, local: Byte, remote: Byte, tag: Tag,
                                            start: nat, now: nat)
    requires AllFor(es, local, remote)
    requires Timely(es, now) && start <= (if es == [] then now else es[0].now)
    requires !InUse(s.slots, |s.slots|, local, remote, tag, start)
    ensures Approaching(s, es, local, remote, tag, now)
  {
    if es == [] {
      FreeLater(s.slots, local, remote, tag, start, now);
    } else {
      var init, e := es[..|es| - 1], es[|es| - 1];
      CursorApproaches(s, init, local, remote, tag, start, e.now);
      ApproachStep(s, init, e, local, remote, tag);
      assert init + [e] == es;
      ApproachLater(s, es, local, remote, tag, e.now, now);
    }
  }

  lemma ApproachLater(s: TagState, es: seq<Event>, local: Byte, remote: Byte, tag: Tag, now: nat, later: nat)
    requires Approaching(s, es, local, remote, tag, now) && now <= later
    ensures Approaching(s, es, local, remote, tag, later)
  {
    var slots := Run(s, es).slots;
    if !InUse(slots, |slots|, local, remote, tag, now) {
      FreeLater(slots, local, remote, tag, now, later);
    }
  }

  lemma ApproachStep(s: TagState, es: seq<Event>, e: Event, local: Byte, remote: Byte, tag: Tag)
    requires e.Allocate? ==> e.local == local && e.remote == remote
    requires Approaching(s, es, local, remote, tag, e.now)
    ensures Approaching(s, es + [e], local, remote, tag, e.now)
  {
    var u, before := Run(s, es), Issued(s, es);
    RunSnoc(s, es, e);
    IssuedSnoc(s, es, e);
    if e.Allocate? && Alloc(u, local, remote, e.now).tag.Some? {
      var t := Alloc(u, local, remote, e.now).tag.value;
      FirstEightSnoc(before, t, tag);
      if tag !in FirstEight(before) && t != tag {
        AllocApproaches(u, local, remote, e.now, tag);
        FreeUntilIssued(u, e, local, remote, tag);
      }
    } else if tag !in FirstEight(before) {
      FreeUntilIssued(u, e, local, remote, tag);
    }
  }

  lemma IssuedSnoc(s: TagState, es: seq<Event>, e: Event)
    ensures Issued(s, es + [e]) ==
            if e.Allocate? && Alloc(Run(s, es), e.local, e.remote, e.now).tag.Some?
            then Issued(s, es) + [Alloc(Run(s, es), e.local, e.remote, e.now).tag.value] else Issued(s, es)
  {
    assert (es + [e])[..|es|] == es;
    assert Issued(s, es) + [] == Issued(s, es);
  }

  /** Fairness: if all allocations are for one pair, a tag that is free when the run starts is among
      the first eight issued, whether or not it is then held. */
  lemma IssuedWithinEight(s: TagState, es: seq<Event>, local: Byte, remote: Byte, tag: Tag, start: nat, now: nat)
    requires AllFor(es, local, remote)
    requires Timely(es, now) && start <= (if es == [] then now else es[0].now)
    requires !InUse(s.slots, |s.slots|, local, remote, tag, start)
    requires |Issued(s, es)| >= 8
    ensures tag in Issued(s, es)[..8]
  {
    CursorApproaches(s, es, local, remote, tag, start, now);
    assert Issued(s, es)[..8] == FirstEight(Issued(s, es));
  }

  // ---------------------------------------------------------------------------------------
  // Releasing
  // ---------------------------------------------------------------------------------------

  /** The pair holds the tag live, but an expired slot with the same tag comes first. */
  predicate Shadowed(slots: seq<ReqTag>, local: Byte, remote: Byte, tag: Tag, now: nat) {
    var i := FirstMatch(slots, local, remote, tag, 0);
    i < |slots| && !Live(slots[i], now) && InUse(slots, |slots|, local, remote, tag, now)
  }

  /** Releasing a tag frees it if and only if no expired duplicate comes first. */
  lemma ReleaseFrees(s: TagState, local: Byte, remote: Byte, tag: Tag, now: nat)
    requires local != 0 && Unique(s.slots, now)
    ensures var s' := Dealloc(s, local, remote, tag);
            InUse(s'.slots, |s'.slots|, local, remote, tag, now) <==> Shadowed(s.slots, local, remote, tag, now)
  {
    var s' := Dealloc(s, local, remote, tag);
    var i := FirstMatch(s.slots, local, remote, tag, 0);
    if i < |s.slots| {
      forall j | 0 <= j < |s.slots| && Live(s'.slots[j], now) && Matches(s'.slots[j], local, remote, tag)
        ensures !Live(s.slots[i], now) && InUse(s.slots, |s.slots|, local, remote, tag, now)
      {
        assert j > i && s.slots[j] == s'.slots[j];
      }
      if Shadowed(s.slots, local, remote, tag, now) {
        var j :| 0 <= j < |s.slots| && Live(s.slots[j], now) && Matches(s.slots[j], local, remote, tag);
        assert s'.slots[j] == s.slots[j];
      }
    }
  }

  /** A release clears at most one slot, the first that holds the tag, and leaves the cursor alone;
      one for the null EID does nothing. */
  lemma ReleaseClearsOne(s: TagState, local: Byte, remote: Byte, tag: Tag)
    ensures var s' := Dealloc(s, local, remote, tag);
            && s'.cursor == s.cursor && |s'.slots| == |s.slots|
            && (local == 0 ==> s' == s)
            && (forall i :: 0 <= i < |s.slots| && s'.slots[i] != s.slots[i] ==>
                  Matches(s.slots[i], local, remote, tag) && s'.slots[i] == UNUSED)
            && (forall i :: 0 <= i < |s.slots| && local != 0 && Matches(s.slots[i], local, remote, tag) ==>
                  s'.slots[i] == UNUSED || exists j :: 0 <= j < i && Matches(s.slots[j], local, remote, tag))
            && (forall i, j :: 0 <= i < j < |s.slots| && s'.slots[i] != s.slots[i] ==> s'.slots[j] == s.slots[j])
  {
  }

  /** Nothing else is released: every other tag, of this or any pair, is in use after the release
      exactly if it was before, at any time. */
  lemma ReleaseKeepsOthers(s: TagState, local: Byte, remote: Byte, tag: Tag, l: Byte, r: Byte, t: Tag, now: nat)
    requires l != local || r != remote || t != tag
    ensures var s' := Dealloc(s, local, remote, tag);
            InUse(s'.slots, |s'.slots|, l, r, t, now) <==> InUse(s.slots, |s.slots|, l, r, t, now)
  {
    var s' := Dealloc(s, local, remote, tag);
    ReleaseClearsOne(s, local, remote, tag);
    if InUse(s.slots, |s.slots|, l, r, t, now) {
      var i :| 0 <= i < |s.slots| && Live(s.slots[i], now) && Matches(s.slots[i], l, r, t);
      assert s'.slots[i] == s.slots[i];
    }
    if InUse(s'.slots, |s'.slots|, l, r, t, now) {
      var i :| 0 <= i < |s'.slots| && Live(s'.slots[i], now) && Matches(s'.slots[i], l, r, t);
      assert s'.slots[i] == s.slots[i];
    }
  }

  /** No event of the run releases the tag. */
  predicate NotReleased(es: seq<Event>, local: Byte, remote: Byte, tag: Tag) {
    forall i :: 0 <= i < |es| && es[i].Release? ==>
      es[i].local != local || es[i].remote != remote || es[i].tag != tag
  }

  /** An entry that has not expired by the end of a run, and is not released, is still there. */
  lemma {:induction false} EntryStays(s: TagState, es: seq<Event>, i: nat, now: nat)
    requires i < |s.slots| && Live(s.slots[i], now) && Timely(es, now)
    requires NotReleased(es, s.slots[i].local, s.slots[i].remote, s.slots[i].tag)
    ensures var slots := Run(s, es).slots; |slots| == |s.slots| && slots[i] == s.slots[i]
  {
    if es != [] {
      var init, e := es[..|es| - 1], es[|es| - 1];
      EntryStays(s, init, i, e.now);
      var u := Run(s, init);
      if e.Release? { ReleaseClearsOne(u, e.local, e.remote, e.tag); }
    }
  }

  /** A tag lasts six seconds: right after it is issued it is in use at a later time if and only if
      that is no more than the timeout away. */
  lemma IssuedLasts(s: TagState, local: Byte, remote: Byte, at: nat, now: nat)
    requires local != 0 && Alloc(s, local, remote, at).tag.Some? && at <= now && at + 6000 < UINT64_LIMIT
    ensures var r := Alloc(s, local, remote, at);
            InUse(r.s.slots, |r.s.slots|, local, remote, r.tag.value, now) <==> now <= at + 6000
  {
    var r := Alloc(s, local, remote, at);
    var i := Spare(s.slots, |s.slots|, at);
    FreeLater(s.slots, local, remote, r.tag.value, at, now);
    assert Matches(r.s.slots[i], local, remote, r.tag.value) && r.s.slots[i].expiry == at + 6000;
    forall j | 0 <= j < |s.slots| && j != i
      ensures !(Live(r.s.slots[j], now) && Matches(r.s.slots[j], local, remote, r.tag.value))
    {
      assert r.s.slots[j] == s.slots[j];
    }
  }

  /** Tag ownership over runs: a tag once issued stays in use through any allocations and releases
      of other tags until it expires or is itself released. */
  lemma IssuedStays(s: TagState, local: Byte, remote: Byte, at: nat, es: seq<Event>, now: nat)
    requires local != 0 && Alloc(s, local, remote, at).tag.Some?
    requires Timely(es, now) && at <= now <= at + 6000 < UINT64_LIMIT
    requires NotReleased(es, local, remote, Alloc(s, local, remote, at).tag.value)
    ensures var r := Alloc(s, local, remote, at);
            var slots := Run(r.s, es).slots;
            InUse(slots, |slots|, local, remote, r.tag.value, now)
  {
    var r := Alloc(s, local, remote, at);
    var i := Spare(s.slots, |s.slots|, at);
    EntryStays(r.s, es, i, now);
    assert Matches(Run(r.s, es).slots[i], local, remote, r.tag.value);
  }

  lemma RunSnoc(s: TagState, es: seq<Event>, e: Event)
    ensures Run(s, es + [e]) == Step(Run(s, es), e)
  {
  }

  lemma TimelySnoc(es: seq<Event>, e: Event)
    requires Timely(es, e.now)
    ensures Timely(es + [e], e.now)
  {
  }

  /** With no live slot, the tag at the cursor goes into the last slot. */
  lemma AllocWhenAllExpired(s: TagState, local: Byte, remote: Byte, now: nat)
    requires |s.slots| > 0 && forall i :: 0 <= i < |s.slots| ==> !Live(s.slots[i], now)
    ensures var e := ReqTag(local, remote, s.cursor, (now + TAG_TIMEOUT) % UINT64_LIMIT);
            Alloc(s, local, remote, now) ==
            AllocResult(TagState(s.slots[|s.slots| - 1 := e], Turn(s.cursor, 1)), Some(s.cursor))
  {
  }

  const TWO_SLOTS := TagState([UNUSED, UNUSED], 0)

  lemma TimelyLater(es: seq<Event>, now: nat, later: nat)
    requires Timely(es, now) && now <= later
    ensures Timely(es, later)
  {
  }

  /** Allocating for (9, 20) every seven seconds, after both slots have expired, moves the tag in
      the last slot on by one. */
  lemma Spin(es: seq<Event>, first: ReqTag, last: ReqTag, cursor: Tag, now: nat)
    requires Timely(es, now) && Run(TWO_SLOTS, es) == TagState([first, last], cursor)
    requires first.expiry <= now + TAG_TIMEOUT && last.expiry <= now + TAG_TIMEOUT && now < 100000
    ensures var es' := es + [Allocate(now + 7000, 9, 20)];
            && Timely(es', now + 7000)
            && Run(TWO_SLOTS, es') ==
               TagState([first, ReqTag(9, 20, cursor, now + 7000 + TAG_TIMEOUT)], Turn(cursor, 1))
  {
    var e := Allocate(now + 7000, 9, 20);
    TimelyLater(es, now, e.now);
    TimelySnoc(es, e);
    RunSnoc(TWO_SLOTS, es, e);
    SpinAlloc(first, last, cursor, e.now);
  }

  lemma SpinAlloc(first: ReqTag, last: ReqTag, cursor: Tag, now: nat)
    requires first.expiry < now && last.expiry < now && now + TAG_TIMEOUT < UINT64_LIMIT
    ensures Alloc(TagState([first, last], cursor), 9, 20, now).s ==
            TagState([first, ReqTag(9, 20, cursor, now + TAG_TIMEOUT)], Turn(cursor, 1))
  {
    AllocWhenAllExpired(TagState([first, last], cursor), 9, 20, now);
    var e' := ReqTag(9, 20, cursor, now + TAG_TIMEOUT);
    assert [first, last][1 := e'] == [first, e'];
  }

  /** Tag 0 for another pair goes into the last slot, so tag 1 for (9, 20) goes into the first. */
  lemma FirstTwo()
    ensures var es := [Allocate(0, 9, 30), Allocate(0, 9, 20)];
            && Timely(es, 0)
            && Run(TWO_SLOTS, es) == TagState([ReqTag(9, 20, 1, 6000), ReqTag(9, 30, 0, 6000)], 2)
  {
    var a, b := Allocate(0, 9, 30), Allocate(0, 9, 20);
    RunSnoc(TWO_SLOTS, [], a);
    RunSnoc(TWO_SLOTS, [a], b);
    TimelySnoc([], a);
    TimelySnoc([a], b);
    assert [] + [a] == [a] && [a] + [b] == [a, b];
    AllocWhenAllExpired(TWO_SLOTS, 9, 30, 0);
    var s := TagState([UNUSED, ReqTag(9, 30, 0, 6000)], 1);
    assert TWO_SLOTS.slots[1 := ReqTag(9, 30, 0, 6000)] == s.slots;
    SecondAlloc(s);
  }

  lemma SecondAlloc(s: TagState)
    requires s == TagState([UNUSED, ReqTag(9, 30, 0, 6000)], 1)
    ensures Alloc(s, 9, 20, 0).s == TagState([ReqTag(9, 20, 1, 6000), ReqTag(9, 30, 0, 6000)], 2)
  {
    assert Spare(s.slots, 2, 0) == 0;
    assert Turn(1, 0) == 1 && !InUse(s.slots, 2, 9, 20, 1, 0);
    assert Pick(s, 9, 20, 0, 0) == 0;
    assert s.slots[0 := ReqTag(9, 20, 1, 6000)] == [ReqTag(9, 20, 1, 6000), ReqTag(9, 30, 0, 6000)];
  }

  lemma {:induction false} SpinRound(k: nat) returns (es: seq<Event>, last: ReqTag)
    requires k <= 8
    ensures Timely(es, 7000 * k)
    ensures Run(TWO_SLOTS, es) == TagState([ReqTag(9, 20, 1, 6000), last], if k == 8 then 2 else Turn(2, k))
    ensures last == if k == 0 then ReqTag(9, 30, 0, 6000) else ReqTag(9, 20, Turn(2, k - 1), 7000 * k + TAG_TIMEOUT)
  {
    if k == 0 {
      FirstTwo();
      es, last := [Allocate(0, 9, 30), Allocate(0, 9, 20)], ReqTag(9, 30, 0, 6000);
    } else {
      es, last := SpinRound(k - 1);
      var cursor := Turn(2, k - 1);
      Spin(es, ReqTag(9, 20, 1, 6000), last, cursor, 7000 * (k - 1));
      es := es + [Allocate(7000 * (k - 1) + 7000, 9, 20)];
      last := ReqTag(9, 20, cursor, 7000 * k + TAG_TIMEOUT);
    }
  }

  /** So a release can leave the tag in use: a run of allocations that reaches such a state from
      an empty table of two slots. */
  lemma ReleaseCanMiss() returns (es: seq<Event>, now: nat)
    ensures Timely(es, now)
    ensures var s := Run(TWO_SLOTS, es);
            |s.slots| == 2 && Shadowed(s.slots, 9, 20, 1, now) && InUse(Dealloc(s, 9, 20, 1).slots, 2, 9, 20, 1, now)
  {
    var last;
    es, last := SpinRound(8);
    now := 56000;
    var s := Run(TWO_SLOTS, es);
    assert Live(s.slots[1], now) && Matches(s.slots[1], 9, 20, 1);
    assert FirstMatch(s.slots, 9, 20, 1, 0) == 0;
    assert Dealloc(s, 9, 20, 1).slots[1] == last;
  }

  // ---------------------------------------------------------------------------------------
  // The table, in place
  // ---------------------------------------------------------------------------------------

  /** The mask bit of a tag, `1 << tag`. */
  function Bit(tag: Tag): bv8 {
    if tag == 0 then 1 else if tag == 1 then 2 else if tag == 2 then 4 else if tag == 3 then 8
    else if tag == 4 then 16 else if tag == 5 then 32 else if tag == 6 then 64 else 128
  }

  lemma SetBit(mask: bv8, tag: Tag, other: Tag)
    ensures (mask | Bit(tag)) & Bit(other) != 0 <==> mask & Bit(other) != 0 || tag == other
  {
  }

  /** The mask covers exactly the tags the pair uses in the first `n` slots. */
  ghost predicate Covers(mask: bv8, slots: seq<ReqTag>, n: nat, local: Byte, remote: Byte, now: nat)
    requires n <= |slots|
  {
    forall t: Tag :: mask & Bit(t) != 0 <==> InUse(slots, n, local, remote, t, now)
  }

  lemma CoversNone(slots: seq<ReqTag>, local: Byte, remote: Byte, now: nat)
    ensures Covers(0, slots, 0, local, remote, now)
  {
  }

  lemma CoversStep(mask: bv8, slots: seq<ReqTag>, n: nat, local: Byte, remote: Byte, now: nat, mask': bv8)
    requires n < |slots| && Covers(mask, slots, n, local, remote, now)
    requires mask' == if Live(slots[n], now) && slots[n].local == local && slots[n].remote == remote
                      then mask | Bit(slots[n].tag) else mask
    ensures Covers(mask', slots, n + 1, local, remote, now)
  {
    forall t: Tag ensures mask' & Bit(t) != 0 <==> InUse(slots, n + 1, local, remote, t, now) {
      SetBit(mask, slots[n].tag, t);
      InUseStep(slots, n, local, remote, t, now);
    }
  }

  lemma InUseStep(slots: seq<ReqTag>, n: nat, local: Byte, remote: Byte, tag: Tag, now: nat)
    requires n < |slots|
    ensures InUse(slots, n + 1, local, remote, tag, now) <==>
              InUse(slots, n, local, remote, tag, now) || (Live(slots[n], now) && Matches(slots[n], local, remote, tag))
  {
  }

  class TagTable {
    const tags: array<ReqTag>
    var roundRobin: Tag

    ghost function View(): TagState
      reads this, tags
    {
      TagState(tags[..], roundRobin)
    }

    constructor (n: nat)
      ensures fresh(tags)
      ensures View() == TagState(seq(n, _ => UNUSED), 0)
    {
      tags := new ReqTag[n](_ => UNUSED);
      roundRobin := 0;
      new;
      assert tags[..] == seq(n, _ => UNUSED);
    }

    /** The first loop of mctp_alloc_tag: the tags in use and a spare slot, or -1. */
    method Scan(local: Byte, remote: Byte, now: nat) returns (used: bv8, spare: int)
      ensures spare == Spare(tags[..], tags.Length, now)
      ensures Covers(used, tags[..], tags.Length, local, remote, now)
    {
      used, spare := 0, -1;
      ghost var slots := tags[..];
      CoversNone(slots, local, remote, now);
      for i := 0 to tags.Length
        invariant spare == Spare(slots, i, now)
        invariant Covers(used, slots, i, local, remote, now)
      {
        var r := tags[i];
        ghost var before := used;
        if r.local == 0 || r.expiry < now {
          spare := i;
        } else if r.local == local && r.remote == remote {
          used := used | Bit(r.tag);
        }
        CoversStep(before, slots, i, local, remote, now, used);
      }
    }

    /** mctp_alloc_tag; returns -EBUSY, or 0 and the tag. */
    method AllocTag(local: Byte, remote: Byte, now: nat) returns (rc: int, tag: Tag)
      requires local != 0
      modifies this, tags
      ensures View() == Alloc(old(View()), local, remote, now).s
      ensures match Alloc(old(View()), local, remote, now).tag
              case None => rc == -EBUSY
              case Some(t) => rc == 0 && tag == t
    {
      rc, tag := -EBUSY, 0;
      var used, spare := Scan(local, remote, now);
      if spare == -1 {
        return;
      }
      for t := 0 to 8
        invariant View() == old(View())
        invariant Pick(View(), local, remote, now, 0) == Pick(View(), local, remote, now, t)
      {
        var candidate := (t + roundRobin) % 8;
        TurnIsMod(roundRobin, t);
        if used & Bit(candidate) == 0 {
          assert Pick(View(), local, remote, now, 0) == t;
          TurnIsMod(candidate, 1);
          tags[spare] := ReqTag(local, remote, candidate, (now + TAG_TIMEOUT) % UINT64_LIMIT);
          tag := candidate;
          roundRobin := (candidate + 1) % 8;
          return 0, tag;
        }
      }
    }

    /** mctp_dealloc_tag */
    method DeallocTag(local: Byte, remote: Byte, tag: Tag)
      modifies tags
      ensures View() == Dealloc(old(View()), local, remote, tag)
    {
      if local == 0 {
        return;
      }
      for i := 0 to tags.Length
        invariant View() == old(View())
        invariant FirstMatch(tags[..], local, remote, tag, 0) == FirstMatch(tags[..], local, remote, tag, i)
      {
        var r := tags[i];
        if r.local == local && r.remote == remote && r.tag == tag {
          tags[i] := UNUSED;
          return;
        }
      }
    }
  }
}
