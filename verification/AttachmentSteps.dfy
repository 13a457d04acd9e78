/** What a try does with each attachment of its listing, and what it leaves. */
module AttachmentSteps {
  import opened AttachmentRetries
  import opened Options

  ghost predicate IsListed(failures: seq<Failure>, id: string) {
    exists i | 0 <= i < |failures| :: failures[i].attachmentId == id
  }

  lemma ListedIff(failures: seq<Failure>, id: string)
    ensures IsListed(failures, id) <==> id in RejectedIds(failures)
  {
  }

  /**
   One attachment, after those before it: left alone without content or when its id is listed, else
   offered. A row is stored if the id has none yet and nothing refuses it or fails before that; a
   refusal is listed with its reason; and the counters follow.
   */
  lemma OneAttachment(p: Progress, items: seq<Item>, x: Item)
    ensures
      var q, r := ProcessAll(p, items), ProcessAll(p, items + [x]);
      var offered := x.hasContent && !IsListed(q.failures, x.id);
      var isKnown := x.id != "" && x.id in q.rows;
      && r.offers == q.offers + (if offered then [Offer(x.id, x.verdict.Refused? && !isKnown)] else [])
      && r.rows == q.rows
           + (if offered && !isKnown && (x.verdict == Accepted || x.verdict == Transient(true)) then [x.id] else [])
      && r.failures == q.failures
           + (if offered && !isKnown && x.verdict.Refused? then [Failure(x.id, x.verdict.reason)] else [])
      && r.stored == q.stored + (if offered && !isKnown && x.verdict == Accepted then 1 else 0)
      && r.failed == q.failed
           + (if offered && (x.verdict.Transient? || (x.verdict.Refused? && !isKnown)) then 1 else 0)
      && (r.transient <==> q.transient || (offered && x.verdict.Transient?))
  {
    assert (items + [x])[..|items|] == items;
    ListedIff(ProcessAll(p, items).failures, x.id);
    hide IsListed, RejectedIds, ProcessAll;
  }

  /** Before the first attachment. */
  lemma NoAttachment(s: State)
    ensures
      var p := ProcessAll(Begin(s), []);
      p.rows == s.rows && p.offers == s.offers && p.stored == 0 && p.failed == 0 && !p.transient
      && p.failures == Normalized(s.failures)
  {
  }

  /** The entries read back are the well-formed ones, in order. */
  lemma NormalizedOneMore(entries: seq<Entry>, entry: Entry)
    ensures Normalized([]) == []
    ensures Normalized(entries + [entry]) ==
      match entry
      case WellFormed(f) => Normalized(entries) + [f]
      case Malformed => Normalized(entries)
  {
    assert (entries + [entry])[..|entries|] == entries;
  }

  /**
   What a try leaves. The closing update writes the list, the mark unless an error was transient, and
   that there are attachments if any was in the listing; if it throws, only rows and offers have changed.
   */
  lemma AfterATry(s: State, listing: seq<Item>, now: int, saved: bool)
    ensures Try(s, None, now, saved) == s
    ensures
      var p, t := ProcessAll(Begin(s), listing), Try(s, Some(listing), now, saved);
      && t.rows == p.rows && t.offers == p.offers
      && (!saved ==> t.failures == s.failures && t.processedAt == s.processedAt && t.hasAttachments == s.hasAttachments)
      && (saved ==>
            && |t.failures| == |p.failures|
            && (forall i | 0 <= i < |p.failures| :: t.failures[i] == WellFormed(p.failures[i]))
            && t.processedAt == (if p.transient then s.processedAt else Some(now))
            && (t.hasAttachments <==> s.hasAttachments || 0 < |listing|))
  {
    hide ProcessAll;
  }
}
