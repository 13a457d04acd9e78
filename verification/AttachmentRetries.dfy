/**
 Storing the attachments of one inbound message. A try may fail and be repeated at later
 syncs; attachments refused for good are put on a list and left alone from then on.
 */
module AttachmentRetries {
  import opened Options

  /**
   How the storing of a new attachment ends. Validation refuses for good; any other error is
   transient, and may come after the row was stored.
   */
  datatype Verdict = Accepted | Refused(reason: string) | Transient(stored: bool)

  /** One attachment of a listing, and what would come of storing it. */
  datatype Item = Item(id: string, hasContent: bool, verdict: Verdict)

  datatype Failure = Failure(attachmentId: string, reason: string)

  /** An entry of the stored list, which is untyped data. */
  datatype Entry = WellFormed(failure: Failure) | Malformed

  /** A call of the attachment store. */
  datatype Offer = Offer(id: string, refused: bool)

  /** `rows` are the attachment ids of the live stored rows, `offers` all calls of the store so far. */
  datatype State = State(
    failures: seq<Entry>, rows: seq<string>, processedAt: Option<int>, hasAttachments: bool, offers: seq<Offer>)

  function Normalized(entries: seq<Entry>): seq<Failure> {
    if entries == [] then []
    else
      Normalized(entries[..|entries| - 1])
      + (if entries[|entries| - 1].WellFormed? then [entries[|entries| - 1].failure] else [])
  }

  function Entries(failures: seq<Failure>): seq<Entry> {
    seq(|failures|, i requires 0 <= i < |failures| => WellFormed(failures[i]))
  }

  function RejectedIds(failures: seq<Failure>): set<string> {
    set i | 0 <= i < |failures| :: failures[i].attachmentId
  }

  // ----- One try -----

  /** The variables of the loop. */
  datatype Progress = Progress(
    failures: seq<Failure>, rows: seq<string>, offers: seq<Offer>, stored: nat, failed: nat, transient: bool)

  function Process(p: Progress, item: Item): Progress {
    if !item.hasContent || item.id in RejectedIds(p.failures) then p
    else if item.id != "" && item.id in p.rows then
      var q := p.(offers := p.offers + [Offer(item.id, false)]);
      if item.verdict.Transient? then q.(failed := q.failed + 1, transient := true) else q
    else match item.verdict
      case Accepted =>
        p.(rows := p.rows + [item.id], offers := p.offers + [Offer(item.id, false)], stored := p.stored + 1)
      case Refused(reason) =>
        p.(failures := p.failures + [Failure(item.id, reason)],
           offers := p.offers + [Offer(item.id, true)],
           failed := p.failed + 1)
      case Transient(stored) =>
        p.(rows := if stored then p.rows + [item.id] else p.rows,
           offers := p.offers + [Offer(item.id, false)],
           failed := p.failed + 1,
           transient := true)
  }

  function ProcessAll(p: Progress, items: seq<Item>): Progress {
    if items == [] then p else Process(ProcessAll(p, items[..|items| - 1]), items[|items| - 1])
  }

  function Begin(s: State): Progress {
    Progress(Normalized(s.failures), s.rows, s.offers, 0, 0, false)
  }

  /**
   A try with the listing it got, or none when the listing could not be fetched. The update that
   closes it may throw: what was stored and offered stays, the rest is as before.
   */
  function Try(s: State, listing: Option<seq<Item>>, now: int, saved: bool): State {
    if listing.None? then s
    else
      var p := ProcessAll(Begin(s), listing.value);
      if saved then
        State(Entries(p.failures), p.rows, if p.transient then s.processedAt else Some(now),
              s.hasAttachments || listing.value != [], p.offers)
      else
        s.(rows := p.rows, offers := p.offers)
  }

  class MessageAttachments {
    var failures: seq<Entry>
    var rows: seq<string>
    var processedAt: Option<int>
    var hasAttachments: bool
    ghost var offers: seq<Offer>

    constructor (hasAttachments: bool)
      ensures Current() == State([], [], None, hasAttachments, [])
    {
      failures, rows, processedAt, offers := [], [], None, [];
      this.hasAttachments := hasAttachments;
    }

    ghost function Current(): State
      reads this
    {
      State(failures, rows, processedAt, hasAttachments, offers)
    }

    /** The attachment store: an id already stored is left as it is; otherwise the verdict decides. */
    method CreateInboundEmailAttachment(item: Item) returns (created: bool, error: Option<Verdict>)
      modifies this`rows, this`offers
      ensures
        var known := item.id != "" && item.id in old(rows);
        && created == (!known && item.verdict.Accepted?)
        && error == (if item.verdict.Transient? || (item.verdict.Refused? && !known) then Some(item.verdict) else None)
        && rows == old(rows) + (if !known && (created || item.verdict == Transient(true)) then [item.id] else [])
        && offers == old(offers) + [Offer(item.id, item.verdict.Refused? && !known)]
    {
      if item.id != "" && item.id in rows {
        offers := offers + [Offer(item.id, false)];
        return false, if item.verdict.Transient? then Some(item.verdict) else None;
      }
      offers := offers + [Offer(item.id, item.verdict.Refused?)];
      if item.verdict.Accepted? {
        rows := rows + [item.id];
        return true, None;
      }
      if item.verdict == Transient(true) {
        rows := rows + [item.id];
      }
      return false, Some(item.verdict);
    }

    method StoreInboundAttachments(listing: Option<seq<Item>>, now: int, saved: bool)
      returns (stored: nat, failed: nat, threw: bool)
      modifies this
      ensures Current() == Try(old(Current()), listing, now, saved)
      ensures threw <==> listing.Some? && !saved
      ensures listing.None? ==> stored == 0 && failed == 1
      ensures listing.Some? ==>
        var p := ProcessAll(Begin(old(Current())), listing.value);
        stored == p.stored && failed == p.failed
    {
      hide Normalized, RejectedIds;
      if listing.None? { return 0, 1, false; }
      var attachments := listing.value;
      stored, failed := 0, 0;
      var transient := false;
      var importFailures := Normalized(failures);
      var rejected := RejectedIds(importFailures);
      ghost var start := Begin(Current());
      for i := 0 to |attachments|
        invariant failures == old(failures) && processedAt == old(processedAt)
        invariant hasAttachments == old(hasAttachments)
        invariant rejected == RejectedIds(importFailures)
        invariant Progress(importFailures, rows, offers, stored, failed, transient)
          == ProcessAll(start, attachments[..i])
      {
        var attachment := attachments[i];
        assert attachments[..i + 1][..i] == attachments[..i];
        if !attachment.hasContent || attachment.id in rejected { continue; }
        var created, error := CreateInboundEmailAttachment(attachment);
        if created { stored := stored + 1; }
        if error.Some? {
          failed := failed + 1;
          if error.value.Refused? {
            RejectedGrows(importFailures, Failure(attachment.id, error.value.reason));
            importFailures := importFailures + [Failure(attachment.id, error.value.reason)];
            rejected := rejected + {attachment.id};
          } else {
            transient := true;
          }
        }
      }
      assert attachments[..|attachments|] == attachments;
      if !saved { return stored, failed, true; }
      failures := Entries(importFailures);
      if !transient { processedAt := Some(now); }
      if |attachments| > 0 { hasAttachments := true; }
      threw := false;
    }
  }

  lemma RejectedGrows(failures: seq<Failure>, f: Failure)
    ensures RejectedIds(failures + [f]) == RejectedIds(failures) + {f.attachmentId}
  {
    var more := failures + [f];
    assert more[|failures|] == f;
    forall i | 0 <= i < |failures| ensures more[i] == failures[i] {
    }
  }

  // ----- What a try keeps -----

  ghost predicate EachOnce(failures: seq<Failure>) {
    forall i, j | 0 <= i < j < |failures| :: failures[i].attachmentId != failures[j].attachmentId
  }

  /** Nothing is offered again once it was refused, and the refused are those on the list. */
  ghost predicate RefusedStayAway(offers: seq<Offer>, failures: seq<Failure>) {
    && (forall i, j | 0 <= i < j < |offers| && offers[i].refused :: offers[j].id != offers[i].id)
    && (forall i | 0 <= i < |offers| && offers[i].refused :: offers[i].id in RejectedIds(failures))
  }

  ghost predicate StoredApart(rows: seq<string>, failures: seq<Failure>) {
    && (forall i | 0 <= i < |rows| :: rows[i] == "" || rows[i] !in RejectedIds(failures))
    && (forall i, j | 0 <= i < j < |rows| && rows[i] != "" :: rows[i] != rows[j])
  }

  ghost predicate Sound(p: Progress) {
    EachOnce(p.failures) && StoredApart(p.rows, p.failures)
  }

  /** From a place on, the offers are of ids that were not on the list. */
  ghost predicate OffersAvoid(offers: seq<Offer>, from: nat, failures: seq<Failure>) {
    forall j | from <= j < |offers| :: offers[j].id !in RejectedIds(failures)
  }

  /** The list grows by ids that were offered and refused, and no id on it is offered. */
  ghost predicate Extends(p: Progress, q: Progress) {
    && p.failures <= q.failures && p.offers <= q.offers
    && OffersAvoid(q.offers, |p.offers|, p.failures)
    && forall i | |p.failures| <= i < |q.failures| ::
         RefusedFrom(q.offers, |p.offers|, q.failures[i].attachmentId)
  }

  ghost predicate RefusedFrom(offers: seq<Offer>, from: nat, id: string) {
    exists j | from <= j < |offers| :: offers[j] == Offer(id, true)
  }

  /** What one attachment can do: nothing, an offer that is refused, or one that is not. */
  ghost predicate Steps(p: Progress, q: Progress, id: string, reason: string, refused: bool) {
    && id !in RejectedIds(p.failures)
    && q.offers == p.offers + [Offer(id, refused)]
    && q.failures == (if refused then p.failures + [Failure(id, reason)] else p.failures)
    && (q.rows == p.rows || (q.rows == p.rows + [id] && !refused && (id == "" || id !in p.rows)))
    && (refused ==> id == "" || id !in p.rows)
  }

  lemma ProcessSteps(p: Progress, item: Item) returns (reason: string, refused: bool)
    ensures
      var q := Process(p, item);
      || (q.offers == p.offers && q.failures == p.failures && q.rows == p.rows)
      || Steps(p, q, item.id, reason, refused)
  {
    refused := item.verdict.Refused? && !(item.id != "" && item.id in p.rows);
    reason := if item.verdict.Refused? then item.verdict.reason else "";
    hide RejectedIds;
  }

  lemma StepKeepsSound(p: Progress, q: Progress, id: string, reason: string, refused: bool)
    requires Sound(p) && Steps(p, q, id, reason, refused)
    ensures Sound(q)
  {
    forall i | 0 <= i < |p.failures| ensures p.failures[i].attachmentId != id {
      assert p.failures[i].attachmentId in RejectedIds(p.failures);
    }
    RejectedGrows(p.failures, Failure(id, reason));
    hide RejectedIds;
  }

  lemma StepKeepsAway(p: Progress, q: Progress, id: string, reason: string, refused: bool)
    requires RefusedStayAway(p.offers, p.failures) && Steps(p, q, id, reason, refused)
    ensures RefusedStayAway(q.offers, q.failures)
  {
    RejectedGrows(p.failures, Failure(id, reason));
    hide RejectedIds;
  }

  lemma {:induction false} ProcessAllKeeps(p: Progress, items: seq<Item>)
    ensures Sound(p) ==> Sound(ProcessAll(p, items))
    ensures RefusedStayAway(p.offers, p.failures)
      ==> RefusedStayAway(ProcessAll(p, items).offers, ProcessAll(p, items).failures)
  {
    hide EachOnce, StoredApart, RefusedStayAway, Process, Steps, Sound;
    if items != [] {
      var mid, last := ProcessAll(p, items[..|items| - 1]), items[|items| - 1];
      ProcessAllKeeps(p, items[..|items| - 1]);
      var reason, refused := ProcessSteps(mid, last);
      var q := Process(mid, last);
      if Steps(mid, q, last.id, reason, refused) {
        if Sound(p) { StepKeepsSound(mid, q, last.id, reason, refused); }
        if RefusedStayAway(p.offers, p.failures) { StepKeepsAway(mid, q, last.id, reason, refused); }
      } else {
        SameSound(mid, q);
      }
    }
  }

  lemma SameSound(p: Progress, q: Progress)
    requires q.offers == p.offers && q.failures == p.failures && q.rows == p.rows
    ensures Sound(p) <==> Sound(q)
  {
  }

  lemma {:induction false} ProcessAllExtends(p: Progress, items: seq<Item>)
    ensures Extends(p, ProcessAll(p, items))
  {
    hide Process, RejectedIds;
    if items != [] {
      var mid, last := ProcessAll(p, items[..|items| - 1]), items[|items| - 1];
      ProcessAllExtends(p, items[..|items| - 1]);
      var reason, refused := ProcessSteps(mid, last);
      var q := Process(mid, last);
      if Steps(mid, q, last.id, reason, refused) {
        StepExtends(p, mid, q, last.id, reason, refused);
      }
    }
  }

  lemma ListedStayListed(some: seq<Failure>, all: seq<Failure>, id: string)
    requires some <= all && id in RejectedIds(some)
    ensures id in RejectedIds(all)
  {
    var i :| 0 <= i < |some| && some[i].attachmentId == id;
    assert all[i].attachmentId == id;
  }

  lemma StepExtends(p: Progress, mid: Progress, q: Progress, id: string, reason: string, refused: bool)
    requires Extends(p, mid) && Steps(mid, q, id, reason, refused)
    ensures Extends(p, q)
  {
    hide RejectedIds;
    if id in RejectedIds(p.failures) {
      ListedStayListed(p.failures, mid.failures, id);
    }
    forall i | |p.failures| <= i < |q.failures| ensures RefusedFrom(q.offers, |p.offers|, q.failures[i].attachmentId) {
      if i < |mid.failures| {
        assert RefusedFrom(mid.offers, |p.offers|, mid.failures[i].attachmentId);
        var j :| |p.offers| <= j < |mid.offers| && mid.offers[j] == Offer(mid.failures[i].attachmentId, true);
        assert q.offers[j] == mid.offers[j];
      } else {
        assert q.offers[|mid.offers|] == Offer(id, true);
      }
    }
  }

  predicate Settled(p: Progress, item: Item) {
    !item.hasContent || item.id in p.rows || item.id in RejectedIds(p.failures)
  }

  lemma ProcessSettles(p: Progress, item: Item)
    ensures p.transient ==> Process(p, item).transient
    ensures Process(p, item).transient || Settled(Process(p, item), item)
    ensures forall x :: Settled(p, x) ==> Settled(Process(p, item), x)
  {
    if item.verdict.Refused? {
      RejectedGrows(p.failures, Failure(item.id, item.verdict.reason));
    }
    hide RejectedIds;
  }

  lemma {:induction false} ProcessAllSettles(p: Progress, items: seq<Item>)
    ensures ProcessAll(p, items).transient || forall i | 0 <= i < |items| :: Settled(ProcessAll(p, items), items[i])
  {
    if items != [] {
      var n := |items| - 1;
      ProcessAllSettles(p, items[..n]);
      ProcessSettles(ProcessAll(p, items[..n]), items[n]);
      hide Settled, Process;
      var q := ProcessAll(p, items);
      if !q.transient {
        forall i | 0 <= i < |items| ensures Settled(q, items[i]) {
          if i < n { assert items[..n][i] == items[i]; }
        }
      }
    }
  }

  // ----- Every run of tries -----

  /** A try, made only while the message is not processed; or someone deletes a stored attachment. */
  datatype Action = Retry(listing: Option<seq<Item>>, now: int, saved: bool) | DeleteRow(index: nat)

  function Act(s: State, a: Action): State {
    match a
    case Retry(listing, now, saved) => if s.processedAt.Some? then s else Try(s, listing, now, saved)
    case DeleteRow(i) => if i < |s.rows| then s.(rows := s.rows[..i] + s.rows[i + 1..]) else s
  }

  function Run(s: State, actions: seq<Action>): State
    decreases |actions|
  {
    if actions == [] then s else Run(Act(s, actions[0]), actions[1..])
  }

  ghost predicate Inv(s: State) {
    Sound(Begin(s))
  }

  /** Over the whole past, no id was offered after a refusal, and every refused id is on the list. */
  ghost predicate Final(s: State) {
    RefusedStayAway(s.offers, Normalized(s.failures))
  }

  lemma {:induction false} EntriesAreNormal(failures: seq<Failure>)
    ensures Normalized(Entries(failures)) == failures
  {
    if failures != [] {
      var n := |failures| - 1;
      EntriesAreNormal(failures[..n]);
      assert Entries(failures)[..n] == Entries(failures[..n]);
      assert failures == failures[..n] + [failures[n]];
    }
  }

  // ----- What holds whether or not the closing updates come through -----

  /** The list only grows, and what was on it before is not offered. */
  ghost predicate Grows(s: State, t: State) {
    && Normalized(s.failures) <= Normalized(t.failures) && s.offers <= t.offers
    && OffersAvoid(t.offers, |s.offers|, Normalized(s.failures))
  }

  lemma GrowsOn(s: State, u: State, t: State)
    requires Grows(s, u) && Grows(u, t)
    ensures Grows(s, t)
  {
    hide RejectedIds, Normalized;
    forall j | |u.offers| <= j < |t.offers| ensures t.offers[j].id !in RejectedIds(Normalized(s.failures)) {
      if t.offers[j].id in RejectedIds(Normalized(s.failures)) {
        ListedStayListed(Normalized(s.failures), Normalized(u.failures), t.offers[j].id);
      }
    }
  }

  lemma FewerListedStillApart(rows: seq<string>, some: seq<Failure>, all: seq<Failure>)
    requires some <= all && StoredApart(rows, all)
    ensures StoredApart(rows, some)
  {
    hide RejectedIds;
    forall i | 0 <= i < |rows| && rows[i] != "" ensures rows[i] !in RejectedIds(some) {
      if rows[i] in RejectedIds(some) { ListedStayListed(some, all, rows[i]); }
    }
  }

  lemma TryKeeps(s: State, listing: seq<Item>, now: int, saved: bool)
    requires Inv(s)
    ensures Inv(Try(s, Some(listing), now, saved)) && Grows(s, Try(s, Some(listing), now, saved))
  {
    var p := ProcessAll(Begin(s), listing);
    hide ProcessAll, Normalized, RejectedIds, EachOnce, StoredApart;
    ProcessAllKeeps(Begin(s), listing);
    ProcessAllExtends(Begin(s), listing);
    EntriesAreNormal(p.failures);
    FewerListedStillApart(p.rows, Normalized(s.failures), p.failures);
  }

  lemma ActKeeps(s: State, a: Action)
    requires Inv(s)
    ensures Inv(Act(s, a)) && Grows(s, Act(s, a))
  {
    match a
    case Retry(listing, now, saved) =>
      if s.processedAt.None? && listing.Some? { TryKeeps(s, listing.value, now, saved); }
    case DeleteRow(i) =>
      if i < |s.rows| {
        var rows := s.rows[..i] + s.rows[i + 1..];
        forall j | 0 <= j < |rows| ensures rows[j] == s.rows[if j < i then j else j + 1] {
        }
      }
  }

  /**
   Over every sequence of tries, closed or broken off, the stored list only grows and holds each
   id once, an id on it is never offered to the store again, no attachment is both stored and
   listed, and none is stored twice.
   */
  lemma {:induction false} ListedIsFinal(s: State, actions: seq<Action>)
    requires Inv(s)
    ensures Inv(Run(s, actions)) && Grows(s, Run(s, actions))
    decreases |actions|
  {
    hide Inv, Grows;
    if actions == [] {
      StaysTheSame(s);
    } else {
      var u := Act(s, actions[0]);
      ActKeeps(s, actions[0]);
      ListedIsFinal(u, actions[1..]);
      GrowsOn(s, u, Run(u, actions[1..]));
    }
  }

  lemma StaysTheSame(s: State)
    ensures Grows(s, s)
  {
  }

  // ----- What is lost when a closing update throws -----

  /** A try that refused something and whose closing update threw. */
  ghost predicate LosesRefusals(s: State, a: Action) {
    && a.Retry? && s.processedAt.None? && a.listing.Some? && !a.saved
    && ProcessAll(Begin(s), a.listing.value).failures != Normalized(s.failures)
  }

  ghost predicate NothingLost(s: State, actions: seq<Action>)
    decreases |actions|
  {
    actions == [] || (!LosesRefusals(s, actions[0]) && NothingLost(Act(s, actions[0]), actions[1..]))
  }

  lemma ListedLater(p: Progress, q: Progress, id: string)
    requires Extends(p, q) && id in RejectedIds(q.failures)
    ensures id in RejectedIds(p.failures) || RefusedFrom(q.offers, |p.offers|, id)
  {
    var k :| 0 <= k < |q.failures| && q.failures[k].attachmentId == id;
    assert k < |p.failures| ==> p.failures[k] == q.failures[k];
  }

  lemma RefusedOnlyOnce(offers: seq<Offer>, failures: seq<Failure>, i: nat, from: nat)
    requires RefusedStayAway(offers, failures) && i < from <= |offers| && offers[i].refused
    ensures !RefusedFrom(offers, from, offers[i].id)
  {
  }

  /** Growing by refused ids mends nothing: an id that was refused and not listed has been offered again. */
  lemma ExtendingMendsNothing(p: Progress, q: Progress)
    requires Extends(p, q) && RefusedStayAway(q.offers, q.failures)
    ensures RefusedStayAway(p.offers, p.failures)
  {
    hide RejectedIds, RefusedFrom;
    forall i, j | 0 <= i < j < |p.offers| && p.offers[i].refused ensures p.offers[j].id != p.offers[i].id {
      assert q.offers[i] == p.offers[i] && q.offers[j] == p.offers[j];
    }
    forall i | 0 <= i < |p.offers| && p.offers[i].refused ensures p.offers[i].id in RejectedIds(p.failures) {
      assert q.offers[i] == p.offers[i];
      if p.offers[i].id !in RejectedIds(p.failures) {
        RefusedOnlyOnce(q.offers, q.failures, i, |p.offers|);
        ListedLater(p, q, p.offers[i].id);
      }
    }
  }

  /** A new refusal that is left off the list shows at once. */
  lemma UnlistedRefusal(p: Progress, q: Progress)
    requires Extends(p, q) && q.failures != p.failures
    ensures !RefusedStayAway(q.offers, p.failures)
  {
    var id := q.failures[|p.failures|].attachmentId;
    assert RefusedFrom(q.offers, |p.offers|, id);
    var j :| |p.offers| <= j < |q.offers| && q.offers[j] == Offer(id, true);
    assert q.offers[j].id !in RejectedIds(p.failures);
  }

  lemma ActIsFinalIff(s: State, a: Action)
    ensures Final(Act(s, a)) <==> Final(s) && !LosesRefusals(s, a)
  {
    if a.Retry? && s.processedAt.None? && a.listing.Some? {
      var p, q := Begin(s), ProcessAll(Begin(s), a.listing.value);
      hide ProcessAll, Normalized, RefusedStayAway, Extends;
      ProcessAllKeeps(p, a.listing.value);
      ProcessAllExtends(p, a.listing.value);
      EntriesAreNormal(q.failures);
      if RefusedStayAway(q.offers, q.failures) { ExtendingMendsNothing(p, q); }
      if q.failures != p.failures { UnlistedRefusal(p, q); }
    }
  }

  /**
   Over every run, a refused attachment is on the list and is never offered again, exactly if no
   closing update threw in a try that had refused something. Nothing later makes up for one.
   */
  lemma {:induction false} RefusalsAreFinal(s: State, actions: seq<Action>)
    ensures Final(Run(s, actions)) <==> Final(s) && NothingLost(s, actions)
    decreases |actions|
  {
    hide Final, LosesRefusals, Act;
    if actions != [] {
      ActIsFinalIff(s, actions[0]);
      RefusalsAreFinal(Act(s, actions[0]), actions[1..]);
    }
  }

  /** A refusal that is lost: the update throws, and the next try offers the attachment again. */
  lemma LostRefusalIsRepeated(now: int)
    ensures
      var listing := Some([Item("a", true, Refused("too large"))]);
      var s := State([], [], None, false, []);
      var t := Run(s, [Retry(listing, now, false), Retry(listing, now, true)]);
      && t.offers == [Offer("a", true), Offer("a", true)]
      && Final(s) && !Final(t)
  {
    var item := Item("a", true, Refused("too large"));
    var listing, s := Some([item]), State([], [], None, false, []);
    var first, second := Retry(listing, now, false), Retry(listing, now, true);
    var p := Process(Begin(s), item);
    assert [item][..0] == [];
    assert ProcessAll(Begin(s), []) == Begin(s) && ProcessAll(Begin(s), [item]) == p;
    var u := Act(s, first);
    assert u == State([], [], None, false, [Offer("a", true)]);
    assert ProcessAll(Begin(u), []) == Begin(u) && ProcessAll(Begin(u), [item]) == Process(Begin(u), item);
    var t := Act(u, second);
    assert t.offers == [Offer("a", true)] + [Offer("a", true)];
    assert [first, second][1..] == [second] && [second][1..] == [];
    assert Run(t, []) == t && Run(u, [second]) == t && Run(s, [first, second]) == t;
    assert t.offers[0].refused && t.offers[1].id == t.offers[0].id;
  }

  /** When a try marks the message as processed, every attachment with content in its listing is stored or refused. */
  lemma ProcessedMeansSettled(s: State, listing: Option<seq<Item>>, now: int, saved: bool)
    requires s.processedAt.None? && Try(s, listing, now, saved).processedAt.Some?
    ensures listing.Some? && saved
    ensures
      var t := Try(s, listing, now, saved);
      forall i | 0 <= i < |listing.value| && listing.value[i].hasContent ::
        listing.value[i].id in t.rows || listing.value[i].id in RejectedIds(Normalized(t.failures))
  {
    var p := ProcessAll(Begin(s), listing.value);
    ProcessAllSettles(Begin(s), listing.value);
    EntriesAreNormal(p.failures);
    forall i | 0 <= i < |listing.value| && listing.value[i].hasContent
      ensures listing.value[i].id in p.rows || listing.value[i].id in RejectedIds(p.failures)
    {
      assert Settled(p, listing.value[i]);
    }
  }

  /** The deletions of a run, without the tries. */
  function Deletions(actions: seq<Action>): seq<Action> {
    if actions == [] then []
    else (if actions[0].DeleteRow? then [actions[0]] else []) + Deletions(actions[1..])
  }

  lemma {:induction false} ProcessedStaysProcessed(s: State, later: seq<Action>)
    requires s.processedAt.Some?
    ensures
      var t := Run(s, later);
      && t == Run(s, Deletions(later))
      && t == s.(rows := t.rows) && forall id | id in t.rows :: id in s.rows
    decreases |later|
  {
    if later != [] {
      var u := Act(s, later[0]);
      ProcessedStaysProcessed(u, later[1..]);
      assert forall id | id in u.rows :: id in s.rows;
      if later[0].DeleteRow? {
        assert ([later[0]] + Deletions(later[1..]))[1..] == Deletions(later[1..]);
      } else {
        assert [] + Deletions(later[1..]) == Deletions(later[1..]);
      }
    }
  }

  /**
   When a try is the last: it marks the message exactly if its update comes through
   and it met no transient error, which its listing may rule out; from then on, whatever is tried, with whatever
   listings, only deletions have any effect.
   */
  lemma SettledTryIsTheLast(s: State, listing: seq<Item>, now: int, saved: bool, later: seq<Action>)
    requires s.processedAt.None?
    ensures
      var t := Try(s, Some(listing), now, saved);
      var u := Run(t, later);
      && (t.processedAt == Some(now) <==> saved && !ProcessAll(Begin(s), listing).transient)
      && ((forall i | 0 <= i < |listing| :: !listing[i].verdict.Transient?) ==> t.processedAt.Some? == saved)
      && (t.processedAt.Some? ==>
            && u == Run(t, Deletions(later))
            && u == t.(rows := u.rows) && forall id | id in u.rows :: id in t.rows)
  {
    if forall i | 0 <= i < |listing| :: !listing[i].verdict.Transient? {
      NoTransientError(Begin(s), listing);
    }
    if Try(s, Some(listing), now, saved).processedAt.Some? {
      ProcessedStaysProcessed(Try(s, Some(listing), now, saved), later);
    }
  }

  lemma {:induction false} NoTransientError(p: Progress, items: seq<Item>)
    requires forall i | 0 <= i < |items| :: !items[i].verdict.Transient?
    ensures ProcessAll(p, items).transient == p.transient
  {
    if items != [] {
      NoTransientError(p, items[..|items| - 1]);
    }
  }
}
