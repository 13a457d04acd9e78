/**
 What the association of a domain makes of the contacts: how many it creates, against the
 number it reports as created, and the one case in which it breaks.
 */
module Associations {
  import opened ClientDomains
  import opened DomainNames
  import opened Options
  import opened Text

  ghost function CreatedContacts(s: State, t: State): set<nat> {
    set c | c in t.contacts && c !in s.contacts
  }

  ghost predicate HasContact(s: State, client: ClientId, email: string) {
    exists c | c in s.contacts :: IsContactFor(s.contacts, c, client, email)
  }

  /** The addresses that get a contact because the client had none for them. */
  ghost function FreshAddresses(s: State, low: CaseMap, client: ClientId, organization: Id, domain: string)
    : set<string>
  {
    set e | e in OrphanAddresses(low, s.tickets, organization, domain) && !HasContact(s, client, e)
  }

  lemma {:induction false} AsManyImages(xs: set<nat>, f: map<nat, string>, ys: set<string>)
    requires forall x | x in xs :: x in f && f[x] in ys
    requires forall y | y in ys :: exists x | x in xs :: x in f && f[x] == y
    requires forall x, z | x in xs && z in xs && f[x] == f[z] :: x == z
    ensures |xs| == |ys|
  {
    if ys == {} {
      assert xs == {};
    } else {
      var y :| y in ys;
      var x :| x in xs && f[x] == y;
      AsManyImages(xs - {x}, f, ys - {y});
    }
  }

  lemma CreatedIsForFresh(s: State, low: CaseMap, t: State, client: ClientId, organization: Id, domain: string, c: nat)
    requires ContactsExtended(low, s.contacts, t.contacts, s.tickets, client, organization, domain)
    requires c in t.contacts && c !in s.contacts
    ensures t.contacts[c].email in FreshAddresses(s, low, client, organization, domain)
  {
    hide SenderEmail, Orphan;
    forall b | b in s.contacts ensures !IsContactFor(s.contacts, b, client, t.contacts[c].email) {
      assert !HasRow(s.contacts, b, client, t.contacts[c].email);
    }
  }

  lemma FreshGetsContact(s: State, low: CaseMap, t: State, client: ClientId, organization: Id, domain: string,
                         e: string)
    returns (c: nat)
    requires ContactsExtended(low, s.contacts, t.contacts, s.tickets, client, organization, domain)
    requires Adopted(low, s.tickets, t.tickets, t.contacts, client, organization, domain)
    requires e in FreshAddresses(s, low, client, organization, domain)
    ensures c in CreatedContacts(s, t) && t.contacts[c].email == e
  {
    hide SenderEmail, Orphan;
    var i :| i in s.tickets && Orphan(s.tickets[i], organization, domain) && SenderEmail(low, s.tickets[i]) == e;
    assert i in t.tickets;
    c := t.tickets[i].contact.value;
    assert c in s.contacts ==> IsContactFor(s.contacts, c, client, e);
  }

  /** The contacts created and the fresh addresses correspond one to one. */
  lemma OneContactPerFreshAddress(s: State, low: CaseMap, op: Op, t: State)
    requires op.Associate? && Answer(s, low, op) == Done && Next(s, low, op, t)
    ensures
      var domain := AssociatedDomain(s, low, op);
      |CreatedContacts(s, t)| == |FreshAddresses(s, low, op.client, op.organization, domain)|
  {
    hide Answer, TableAfter, FreshAddresses, Adopted, AssociatedDomain;
    assert NextAssociated(s, low, op, t);
    var domain, client, org := AssociatedDomain(s, low, op), op.client, op.organization;
    var created, unmet := CreatedContacts(s, t), FreshAddresses(s, low, client, org, domain);
    var emails := map c | c in created :: t.contacts[c].email;
    forall c | c in created ensures emails[c] in unmet {
      CreatedIsForFresh(s, low, t, client, org, domain, c);
    }
    forall e | e in unmet ensures exists c | c in created :: c in emails && emails[c] == e {
      var c := FreshGetsContact(s, low, t, client, org, domain, e);
      assert c in created && emails[c] == e;
    }
    AsManyImages(created, emails, unmet);
  }

  lemma SmallerSubset(a: set<string>, b: set<string>)
    requires a <= b
    ensures |a| <= |b| && (|a| == |b| <==> a == b)
  {
    assert b == a + (b - a) && |b| == |a| + |b - a|;
  }

  /**
   The number reported is never too small, and it is the number of contacts created exactly
   if no moved ticket came from an address that the client had a live contact for.
   */
  lemma ReportedIsCreatedIff(s: State, low: CaseMap, op: Op, t: State)
    requires op.Associate? && Answer(s, low, op) == Done && Next(s, low, op, t)
    ensures
      var domain := AssociatedDomain(s, low, op);
      var addresses := OrphanAddresses(low, s.tickets, op.organization, domain);
      && |CreatedContacts(s, t)| <= |addresses|
      && (|CreatedContacts(s, t)| == |addresses| <==> forall e | e in addresses :: !HasContact(s, op.client, e))
  {
    hide Next, AssociatedDomain, Answer, OrphanAddresses, HasContact;
    OneContactPerFreshAddress(s, low, op, t);
    var domain := AssociatedDomain(s, low, op);
    var addresses := OrphanAddresses(low, s.tickets, op.organization, domain);
    SmallerSubset(FreshAddresses(s, low, op.client, op.organization, domain), addresses);
  }

  // ----- A case where the two differ -----

  const DOMAIN := "x.io"
  const SENDER := "a@x.io"

  lemma DomainIsNormal(low: CaseMap)
    requires Lowercases(low)
    ensures NormalizeDomain(low, DOMAIN) == Some(DOMAIN)
  {
    DomainTextUnchanged(low, DOMAIN);
    assert Trim(DOMAIN) == DOMAIN;
    assert FirstDot(DOMAIN[1..]) == 0;
    assert DOMAIN[..1] == "x" && DOMAIN[2..] == "io";
  }

  function OrphanTicket(): Ticket {
    Ticket("org", Some(DOMAIN), Some(SENDER), None, None, false)
  }

  /** One ticket from an address that the client has a contact for. */
  function Before(): State {
    State(map[0 := Client("org", false)], 1, Table(map[], 0), map[0 := Contact(0, SENDER, false)], 1,
          map["ticket" := OrphanTicket()], map[], map["seen" := Unmapped("org", DOMAIN, None)])
  }

  const ASSOCIATE := Associate("seen", 0, "org")

  ghost function After(low: CaseMap): State
    requires Answer(Before(), low, ASSOCIATE) == Done
  {
    Before().(table := TableAfter(Before(), low, ASSOCIATE),
              tickets := map["ticket" := OrphanTicket().(client := Some(0), contact := Some(0))],
              unmapped := Before().unmapped[ASSOCIATE.unmappedId := Unmapped("org", DOMAIN, Some(0))])
  }

  /** With no domain rows yet, a pending domain can be associated to a live client. */
  lemma NothingPrevents(s: State, low: CaseMap, id: Id, client: ClientId, organization: Id, domain: string)
    requires s.table.rows == map[] && LiveClient(s.clients, client, organization)
    requires id in s.unmapped && s.unmapped[id] == Unmapped(organization, domain, None)
    requires NormalizeDomain(low, domain).Some?
    ensures Precheck(s, low, id, client, organization) == Done
  {
    hide NormalizeDomain, LiveClient;
  }

  lemma AssociationIsDone(low: CaseMap)
    requires Lowercases(low)
    ensures Answer(Before(), low, ASSOCIATE) == Done && AssociatedDomain(Before(), low, ASSOCIATE) == DOMAIN
  {
    DomainIsNormal(low);
    hide NormalizeDomain, Precheck, OrphanAddresses;
    NothingPrevents(Before(), low, "seen", 0, "org", DOMAIN);
  }

  lemma TicketIsAdopted(low: CaseMap)
    requires SenderEmail(low, OrphanTicket()) == SENDER
    ensures Adopted(low, Before().tickets, map["ticket" := OrphanTicket().(client := Some(0), contact := Some(0))],
                    Before().contacts, 0, "org", DOMAIN)
    ensures OrphanAddresses(low, Before().tickets, "org", DOMAIN) == {SENDER}
  {
    hide SenderEmail;
    assert Orphan(Before().tickets["ticket"], "org", DOMAIN);
  }

  lemma BeforeIsKept()
    ensures Inv(Before())
  {
  }

  lemma NoContactIsAdded(low: CaseMap)
    ensures
      var contacts, tickets := Before().contacts, Before().tickets;
      ContactsExtended(low, contacts, contacts, tickets, 0, "org", DOMAIN)
  {
    hide SenderEmail, Orphan;
  }

  lemma AssociationStep(s: State, low: CaseMap, op: Op, t: State)
    requires op.Associate? && Answer(s, low, op) == Done
    requires t == s.(table := t.table, tickets := t.tickets, unmapped := t.unmapped)
    requires t.table == TableAfter(s, low, op)
    requires t.unmapped == s.unmapped[op.unmappedId := s.unmapped[op.unmappedId].(resolvedTo := Some(op.client))]
    requires forall c | c in s.contacts :: c < s.nextContact
    requires
      var domain := AssociatedDomain(s, low, op);
      && ContactsExtended(low, s.contacts, t.contacts, s.tickets, op.client, op.organization, domain)
      && Adopted(low, s.tickets, t.tickets, t.contacts, op.client, op.organization, domain)
    requires s.messages == map[]
    ensures Next(s, low, op, t)
  {
    hide TableAfter, ContactsExtended, Adopted, NormalizeDomain, Precheck, SomeBuried;
  }

  lemma AfterIsNext(low: CaseMap)
    requires Lowercases(low)
    ensures Answer(Before(), low, ASSOCIATE) == Done && Next(Before(), low, ASSOCIATE, After(low))
  {
    SenderIsNormal(low);
    AssociationIsDone(low);
    TicketIsAdopted(low);
    NoContactIsAdded(low);
    hide Next, SenderEmail, Answer, AssociatedDomain, TableAfter, Adopted, ContactsExtended, OrphanAddresses;
    AssociationStep(Before(), low, ASSOCIATE, After(low));
  }

  /** The association adopts the ticket: one contact is reported as created, and none is. */
  lemma FoundContactIsReported(low: CaseMap) returns (s: State, op: Op, t: State)
    requires Lowercases(low)
    ensures Inv(s) && op.Associate? && Answer(s, low, op) == Done && Next(s, low, op, t)
    ensures
      && CreatedContacts(s, t) == {}
      && |OrphanAddresses(low, s.tickets, op.organization, AssociatedDomain(s, low, op))| == 1
  {
    SenderIsNormal(low);
    AssociationIsDone(low);
    TicketIsAdopted(low);
    AfterIsNext(low);
    BeforeIsKept();
    hide Next, Inv, SenderEmail, Answer, AssociatedDomain, TableAfter, Adopted, OrphanAddresses;
    s, op, t := Before(), ASSOCIATE, After(low);
    assert |{SENDER}| == 1;
  }

  // ----- A case where the association breaks -----

  /** The same, but the contact has been deleted. */
  function BeforeBreaking(): State {
    Before().(contacts := map[0 := Contact(0, SENDER, true)])
  }

  lemma BreaksAt(s: State, low: CaseMap, id: Id, client: ClientId, organization: Id, domain: string, email: string)
    requires Precheck(s, low, id, client, organization) == Done && id in s.unmapped
    requires NormalizeDomain(low, s.unmapped[id].domain) == Some(domain)
    requires email in OrphanAddresses(low, s.tickets, organization, domain) && Buried(s.contacts, client, email)
    ensures Answer(s, low, Associate(id, client, organization)) == Broken
  {
    hide NormalizeDomain, Precheck, OrphanAddresses, Buried;
  }

  lemma DeletedContactIsBuried()
    ensures Buried(BeforeBreaking().contacts, 0, SENDER) && Inv(BeforeBreaking())
  {
    assert BeforeBreaking().contacts[0] == Contact(0, SENDER, true);
  }

  lemma DeletedContactBreaks(low: CaseMap)
    requires Lowercases(low)
    ensures Inv(BeforeBreaking()) && Answer(BeforeBreaking(), low, ASSOCIATE) == Broken
  {
    DomainIsNormal(low);
    SenderIsNormal(low);
    TicketIsAdopted(low);
    DeletedContactIsBuried();
    hide NormalizeDomain, Precheck, OrphanAddresses, SenderEmail, Adopted, Answer, Buried, Inv;
    NothingPrevents(BeforeBreaking(), low, "seen", 0, "org", DOMAIN);
    BreaksAt(BeforeBreaking(), low, "seen", 0, "org", DOMAIN, SENDER);
  }

  lemma {:induction false} LowerTextUnchanged(low: CaseMap, s: string)
    requires Lowercases(low) && forall i | 0 <= i < |s| :: s[i] < '\U{0080}' && AsciiLower(s[i]) == s[i]
    ensures MapCase(low, s) == s
  {
    if s != "" { LowerTextUnchanged(low, s[1..]); }
  }

  lemma SenderIsNormal(low: CaseMap)
    requires Lowercases(low)
    ensures SenderEmail(low, OrphanTicket()) == SENDER
  {
    assert Trim(SENDER) == SENDER;
    LowerTextUnchanged(low, SENDER);
  }
}
