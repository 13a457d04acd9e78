/**
 Who owns an email domain: the operations on clients, on their domains and on domains
 seen in mail that no client owns yet.

 Contacts are deleted softly, but the table keeps one row for each client and address,
 counting the deleted ones.
 */
module ClientDomains {
  import opened DomainNames
  import opened Options
  import opened Text

  type Id = string
  type ClientId = nat

  datatype Client = Client(organization: Id, deleted: bool)
  datatype DomainRow = DomainRow(domain: string, client: ClientId, active: bool, verified: bool)
  datatype Contact = Contact(client: ClientId, email: string, deleted: bool)
  datatype Ticket = Ticket(organization: Id, senderDomain: Option<string>, senderEmail: Option<string>,
                           client: Option<ClientId>, contact: Option<nat>, deleted: bool)
  datatype Message = Message(ticket: Id, inbound: bool, author: Option<nat>)
  datatype Unmapped = Unmapped(organization: Id, domain: string, resolvedTo: Option<ClientId>)

  /** `Broken` is an insertion that a uniqueness constraint refuses, and that nobody catches. */
  datatype Outcome = Done | NotFound | Invalid | Conflict | Broken

  // ----- The table of domains -----

  datatype Table = Table(rows: map<nat, DomainRow>, next: nat)

  ghost predicate OneRowEach(t: Table) {
    && (forall i | i in t.rows :: i < t.next)
    && (forall i, j | i in t.rows && j in t.rows && t.rows[i].domain == t.rows[j].domain :: i == j)
  }

  ghost predicate ActiveOwnersLive(t: Table, clients: map<ClientId, Client>) {
    forall i | i in t.rows && t.rows[i].active :: t.rows[i].client in clients && !clients[t.rows[i].client].deleted
  }

  /** No row changes hands while it is active. */
  ghost predicate OwnersKept(before: Table, after: Table) {
    forall i | i in before.rows ::
      i in after.rows && after.rows[i].domain == before.rows[i].domain
      && (before.rows[i].active ==> after.rows[i].client == before.rows[i].client)
  }

  ghost predicate Holds(t: Table, domain: string, id: nat) {
    id in t.rows && t.rows[id].domain == domain
  }

  ghost function Find(t: Table, domain: string): (r: Option<nat>)
    ensures r.Some? ==> Holds(t, domain, r.value)
    ensures r.None? ==> forall id :: !Holds(t, domain, id)
  {
    if exists id :: Holds(t, domain, id) then
      var id :| Holds(t, domain, id);
      Some(id)
    else None
  }

  /** The row of a domain is replaced, or added when there is none. */
  ghost function Put(t: Table, row: DomainRow): Table {
    match Find(t, row.domain)
    case Some(id) => t.(rows := t.rows[id := row])
    case None => Table(t.rows[t.next := row], t.next + 1)
  }

  ghost predicate Free(t: Table, domain: string) {
    forall id | Holds(t, domain, id) :: !t.rows[id].active
  }

  lemma PutKeeps(t: Table, row: DomainRow, clients: map<ClientId, Client>)
    requires OneRowEach(t) && ActiveOwnersLive(t, clients)
    requires row.client in clients && !clients[row.client].deleted
    requires forall id | Holds(t, row.domain, id) :: t.rows[id].active ==> t.rows[id].client == row.client
    ensures OneRowEach(Put(t, row)) && ActiveOwnersLive(Put(t, row), clients) && OwnersKept(t, Put(t, row))
  {
    forall i | i in t.rows && t.rows[i].domain == row.domain ensures Find(t, row.domain) == Some(i) {
      assert Holds(t, row.domain, i);
    }
  }

  /** A new client takes over the rows of all its domains. */
  ghost function PutAll(t: Table, domains: seq<string>, client: ClientId): Table {
    if domains == [] then t
    else Put(PutAll(t, domains[..|domains| - 1], client), DomainRow(domains[|domains| - 1], client, true, false))
  }

  lemma {:induction false} PutAllKeeps(t: Table, domains: seq<string>, client: ClientId, clients: map<ClientId, Client>)
    requires OneRowEach(t) && ActiveOwnersLive(t, clients)
    requires client in clients && !clients[client].deleted
    requires forall i | 0 <= i < |domains| :: Free(t, domains[i])
    ensures
      var after := PutAll(t, domains, client);
      && OneRowEach(after) && ActiveOwnersLive(after, clients) && OwnersKept(t, after)
      && forall id | id in after.rows && after.rows[id].active ::
           after.rows[id].client == client || (id in t.rows && after.rows[id] == t.rows[id])
  {
    if domains != [] {
      var n := |domains| - 1;
      PutAllKeeps(t, domains[..n], client, clients);
      var mid := PutAll(t, domains[..n], client);
      forall id | Holds(mid, domains[n], id) ensures mid.rows[id].active ==> mid.rows[id].client == client {
        if id in t.rows { assert !Holds(t, domains[n], id) || !t.rows[id].active; }
      }
      PutKeeps(mid, DomainRow(domains[n], client, true, false), clients);
    }
  }

  // ----- The whole state and its operations -----

  datatype State = State(
    clients: map<ClientId, Client>,
    nextClient: nat,
    table: Table,
    contacts: map<nat, Contact>,
    nextContact: nat,
    tickets: map<Id, Ticket>,
    messages: map<Id, Message>,
    unmapped: map<Id, Unmapped>)

  datatype Op =
    | CreateClient(organization: Id, domains: seq<string>)
    | DeleteClient(client: ClientId, organization: Id)
    | CreateDomain(client: ClientId, organization: Id, text: string, isActive: Option<bool>, isVerified: Option<bool>)
    | UpdateDomain(row: nat, organization: Id, isActive: Option<bool>, isVerified: Option<bool>)
    | DeactivateDomain(row: nat, organization: Id)
    | Associate(unmappedId: Id, client: ClientId, organization: Id)
    | DeleteContact(contact: nat, organization: Id)

  function Given(option: Option<bool>, default: bool): bool {
    if option.Some? then option.value else default
  }

  predicate LiveClient(clients: map<ClientId, Client>, id: ClientId, organization: Id) {
    id in clients && clients[id] == Client(organization, false)
  }

  /** A row can be managed through a live client of the organization that owns it. */
  predicate Manages(s: State, row: nat, organization: Id) {
    row in s.table.rows && LiveClient(s.clients, s.table.rows[row].client, organization)
  }

  ghost function Verified(t: Table, domain: string): bool {
    var id := Find(t, domain);
    id.Some? && t.rows[id.value].verified
  }

  /** Another active row for the same domain. */
  ghost predicate ActiveElsewhere(t: Table, row: nat)
    requires row in t.rows
  {
    exists r :: r != row && Holds(t, t.rows[row].domain, r) && t.rows[r].active
  }

  /** The checks that an association makes before it changes anything. */
  ghost function Precheck(s: State, low: CaseMap, id: Id, client: ClientId, organization: Id): Outcome {
    if !(id in s.unmapped && s.unmapped[id].organization == organization && s.unmapped[id].resolvedTo.None?)
    then NotFound
    else if !LiveClient(s.clients, client, organization) then NotFound
    else
      var name := NormalizeDomain(low, s.unmapped[id].domain);
      if name.None? then Invalid
      else if exists r ::
        Holds(s.table, name.value, r) && s.table.rows[r].active && s.table.rows[r].client != client
      then Conflict
      else Done
  }

  /** The only row that a client has for an address is deleted, so no other can be added. */
  ghost predicate Buried(contacts: map<nat, Contact>, client: ClientId, email: string) {
    exists c :: c in contacts && contacts[c] == Contact(client, email, true)
  }

  ghost predicate SomeBuried(contacts: map<nat, Contact>, client: ClientId, emails: set<string>) {
    exists e | e in emails :: Buried(contacts, client, e)
  }

  ghost function Answer(s: State, low: CaseMap, op: Op): Outcome {
    match op
    case CreateClient(org, texts) =>
      var names := NormalizeList(low, texts);
      if names.None? then Invalid
      else if exists i | 0 <= i < |names.value| :: !Free(s.table, names.value[i]) then Conflict
      else Done
    case DeleteClient(id, org) => if LiveClient(s.clients, id, org) then Done else NotFound
    case CreateDomain(client, org, text, _, _) =>
      var name := NormalizeDomain(low, text);
      if !LiveClient(s.clients, client, org) then NotFound
      else if name.None? then Invalid
      else if !Free(s.table, name.value) then Conflict
      else Done
    case UpdateDomain(row, org, isActive, _) =>
      if !Manages(s, row, org) then NotFound
      else if isActive == Some(true) && !s.table.rows[row].active && ActiveElsewhere(s.table, row) then Conflict
      else Done
    case DeactivateDomain(row, org) => if Manages(s, row, org) then Done else NotFound
    case Associate(id, client, org) =>
      if Precheck(s, low, id, client, org) != Done then Precheck(s, low, id, client, org)
      else
        var name := NormalizeDomain(low, s.unmapped[id].domain).value;
        if SomeBuried(s.contacts, client, OrphanAddresses(low, s.tickets, org, name)) then Broken else Done
    case DeleteContact(c, org) =>
      if c in s.contacts && !s.contacts[c].deleted && LiveClient(s.clients, s.contacts[c].client, org) then Done
      else NotFound
  }

  /** The clients and the domain rows after a request that is answered `Done`. */
  ghost function ClientsAfter(s: State, op: Op): map<ClientId, Client> {
    match op
    case CreateClient(org, _) => s.clients[s.nextClient := Client(org, false)]
    case DeleteClient(id, org) => s.clients[id := Client(org, true)]
    case _ => s.clients
  }

  ghost function TableAfter(s: State, low: CaseMap, op: Op): Table
    requires Answer(s, low, op) == Done
  {
    match op
    case CreateClient(_, texts) => PutAll(s.table, NormalizeList(low, texts).value, s.nextClient)
    case DeleteClient(id, _) =>
      s.table.(rows := map r | r in s.table.rows ::
        if s.table.rows[r].client == id then s.table.rows[r].(active := false) else s.table.rows[r])
    case CreateDomain(client, _, text, isActive, isVerified) =>
      var name := NormalizeDomain(low, text).value;
      Put(s.table, DomainRow(name, client, Given(isActive, true), Given(isVerified, Verified(s.table, name))))
    case UpdateDomain(row, _, isActive, isVerified) =>
      var was := s.table.rows[row];
      s.table.(rows := s.table.rows[row := was.(active := Given(isActive, was.active),
                                                verified := Given(isVerified, was.verified))])
    case DeactivateDomain(row, _) => s.table.(rows := s.table.rows[row := s.table.rows[row].(active := false)])
    case Associate(id, client, _) =>
      var name := NormalizeDomain(low, s.unmapped[id].domain).value;
      Put(s.table, DomainRow(name, client, true, Verified(s.table, name)))
    case DeleteContact(_, _) => s.table
  }

  // ----- What an association does to tickets and contacts -----

  /** The live tickets of an organization and domain that have no client. */
  predicate Orphan(t: Ticket, organization: Id, domain: string) {
    t.organization == organization && t.senderDomain == Some(domain) && t.client.None? && !t.deleted
  }

  function SenderEmail(low: CaseMap, t: Ticket): string {
    if t.senderEmail.Some? then MapCase(low, Trim(t.senderEmail.value)) else ""
  }

  /** The different addresses the orphans of a domain came from. */
  ghost function OrphanAddresses(low: CaseMap, tickets: map<Id, Ticket>, organization: Id, domain: string)
    : set<string>
  {
    set i | i in tickets && Orphan(tickets[i], organization, domain) && SenderEmail(low, tickets[i]) != "" ::
      SenderEmail(low, tickets[i])
  }

  predicate IsContactFor(contacts: map<nat, Contact>, c: nat, client: ClientId, email: string) {
    c in contacts && contacts[c] == Contact(client, email, false)
  }

  predicate HasRow(contacts: map<nat, Contact>, c: nat, client: ClientId, email: string) {
    c in contacts && contacts[c].client == client && contacts[c].email == email
  }

  /** The uniqueness constraint of the table. */
  ghost predicate ContactsUnique(contacts: map<nat, Contact>) {
    forall c, d | c in contacts && d in contacts ::
      contacts[c].client == contacts[d].client && contacts[c].email == contacts[d].email ==> c == d
  }

  /** A ticket given to a client, with the live contact of its sender's address if it has one. */
  ghost predicate AdoptedTicket(low: CaseMap, was: Ticket, now: Ticket, contacts: map<nat, Contact>, client: ClientId) {
    && now == was.(client := Some(client), contact := now.contact)
    && match now.contact
       case Some(c) => SenderEmail(low, was) != "" && IsContactFor(contacts, c, client, SenderEmail(low, was))
       case None => SenderEmail(low, was) == ""
  }

  /** Every orphan is adopted, and no other ticket changes. */
  ghost predicate Adopted(low: CaseMap, before: map<Id, Ticket>, after: map<Id, Ticket>,
                          contacts: map<nat, Contact>, client: ClientId, organization: Id, domain: string) {
    && after.Keys == before.Keys
    && forall i | i in before ::
         if Orphan(before[i], organization, domain) then AdoptedTicket(low, before[i], after[i], contacts, client)
         else after[i] == before[i]
  }

  /** Inbound messages of the orphans that have no author get the ticket's new contact, if there is one. */
  ghost predicate Credited(before: map<Id, Message>, after: map<Id, Message>,
                           was: map<Id, Ticket>, now: map<Id, Ticket>, organization: Id, domain: string) {
    && after.Keys == before.Keys
    && forall m | m in before ::
         var ticket := before[m].ticket;
         after[m] ==
           if ticket in was && ticket in now && Orphan(was[ticket], organization, domain)
              && before[m].inbound && before[m].author.None?
           then before[m].(author := now[ticket].contact)
           else before[m]
  }

  /** Existing contacts stay as they are; a new one is for an address that had none and that a ticket was sent from. */
  ghost predicate ContactsExtended(low: CaseMap, before: map<nat, Contact>, after: map<nat, Contact>,
                                   tickets: map<Id, Ticket>, client: ClientId, organization: Id, domain: string) {
    && (forall c | c in before :: c in after && after[c] == before[c])
    && (forall c | c in after && c !in before ::
          && after[c].client == client && !after[c].deleted && after[c].email != ""
          && (forall b | b in before :: !HasRow(before, b, client, after[c].email))
          && exists i | i in tickets ::
               Orphan(tickets[i], organization, domain) && SenderEmail(low, tickets[i]) == after[c].email)
    && (forall c, d | c in after && d in after && c !in before && d !in before ::
          after[c].email == after[d].email ==> c == d)
  }

  /** The domain that an association is about. */
  ghost function AssociatedDomain(s: State, low: CaseMap, op: Op): string
    requires op.Associate? && Answer(s, low, op) in {Done, Broken}
  {
    NormalizeDomain(low, s.unmapped[op.unmappedId].domain).value
  }

  /** An association that breaks leaves the contacts created so far, and nothing else. */
  ghost predicate NextBroken(s: State, low: CaseMap, op: Op, t: State)
    requires op.Associate? && Answer(s, low, op) == Broken
  {
    var domain := AssociatedDomain(s, low, op);
    && t == s.(contacts := t.contacts, nextContact := t.nextContact)
    && (forall c | c in t.contacts :: c < t.nextContact)
    && ContactsExtended(low, s.contacts, t.contacts, s.tickets, op.client, op.organization, domain)
  }

  /**
   An association that an error of the database interrupts: some contacts may be created, and once
   the domain has its row some of the orphans, and of their messages, may have been moved.
   */
  ghost predicate Interrupted(s: State, low: CaseMap, op: Op, t: State) {
    && op.Associate? && Answer(s, low, op) in {Done, Broken}
    && var domain := AssociatedDomain(s, low, op);
       && t == s.(table := t.table, contacts := t.contacts, nextContact := t.nextContact,
                  tickets := t.tickets, messages := t.messages)
       && (forall c | c in t.contacts :: c < t.nextContact)
       && ContactsExtended(low, s.contacts, t.contacts, s.tickets, op.client, op.organization, domain)
       && (|| (t.table == s.table && t.tickets == s.tickets && t.messages == s.messages)
           || (Answer(s, low, op) == Done && t.table == TableAfter(s, low, op) && PartlyMoved(s, low, op, t, domain)))
  }

  ghost predicate PartlyMoved(s: State, low: CaseMap, op: Op, t: State, domain: string)
    requires op.Associate?
  {
    && t.tickets.Keys == s.tickets.Keys && t.messages.Keys == s.messages.Keys
    && (forall i | i in s.tickets ::
          || t.tickets[i] == s.tickets[i]
          || (Orphan(s.tickets[i], op.organization, domain)
              && AdoptedTicket(low, s.tickets[i], t.tickets[i], t.contacts, op.client)))
    && (forall m | m in s.messages ::
          var ticket := s.messages[m].ticket;
          || t.messages[m] == s.messages[m]
          || (ticket in t.tickets && t.messages[m] == s.messages[m].(author := t.tickets[ticket].contact)))
  }

  ghost predicate NextAssociated(s: State, low: CaseMap, op: Op, t: State)
    requires op.Associate? && Answer(s, low, op) == Done
  {
    var domain := AssociatedDomain(s, low, op);
    && t.unmapped == s.unmapped[op.unmappedId := s.unmapped[op.unmappedId].(resolvedTo := Some(op.client))]
    && (forall c | c in t.contacts :: c < t.nextContact)
    && ContactsExtended(low, s.contacts, t.contacts, s.tickets, op.client, op.organization, domain)
    && Adopted(low, s.tickets, t.tickets, t.contacts, op.client, op.organization, domain)
    && Credited(s.messages, t.messages, s.tickets, t.tickets, op.organization, domain)
  }

  ghost predicate Next(s: State, low: CaseMap, op: Op, t: State) {
    if Answer(s, low, op) == Broken then NextBroken(s, low, op, t)
    else if Answer(s, low, op) != Done then t == s
    else
      && t.clients == ClientsAfter(s, op)
      && t.nextClient == (if op.CreateClient? then s.nextClient + 1 else s.nextClient)
      && t.table == TableAfter(s, low, op)
      && if op.Associate? then NextAssociated(s, low, op, t)
         else
           && t.nextContact == s.nextContact && t.tickets == s.tickets && t.messages == s.messages
           && t.unmapped == s.unmapped
           && t.contacts ==
              if op.DeleteContact? then s.contacts[op.contact := s.contacts[op.contact].(deleted := true)]
              else s.contacts
  }

  // ----- What every operation keeps -----

  ghost predicate Inv(s: State) {
    && OneRowEach(s.table) && ActiveOwnersLive(s.table, s.clients)
    && (forall c | c in s.clients :: c < s.nextClient)
    && (forall c | c in s.contacts :: c < s.nextContact) && ContactsUnique(s.contacts)
  }

  lemma CreateClientKeeps(s: State, low: CaseMap, op: Op)
    requires Inv(s) && op.CreateClient? && Answer(s, low, op) == Done
    ensures
      var t := TableAfter(s, low, op);
      OneRowEach(t) && ActiveOwnersLive(t, ClientsAfter(s, op)) && OwnersKept(s.table, t)
  {
    var names := NormalizeList(low, op.domains).value;
    PutAllKeeps(s.table, names, s.nextClient, ClientsAfter(s, op));
  }

  lemma OtherStepsKeep(s: State, low: CaseMap, op: Op)
    requires Inv(s) && !op.CreateClient? && Answer(s, low, op) == Done
    ensures
      var t := TableAfter(s, low, op);
      OneRowEach(t) && ActiveOwnersLive(t, ClientsAfter(s, op)) && OwnersKept(s.table, t)
  {
    match op
    case DeleteClient(id, org) =>
    case CreateDomain(client, org, text, isActive, isVerified) =>
      var name := NormalizeDomain(low, text).value;
      var row := DomainRow(name, client, Given(isActive, true), Given(isVerified, Verified(s.table, name)));
      PutKeeps(s.table, row, s.clients);
    case UpdateDomain(row, org, isActive, isVerified) =>
    case DeactivateDomain(row, org) =>
    case Associate(id, client, org) =>
      var name := NormalizeDomain(low, s.unmapped[id].domain).value;
      PutKeeps(s.table, DomainRow(name, client, true, Verified(s.table, name)), s.clients);
    case DeleteContact(c, org) =>
  }

  lemma ExtendedStayUnique(low: CaseMap, before: map<nat, Contact>, after: map<nat, Contact>,
                           tickets: map<Id, Ticket>, client: ClientId, organization: Id, domain: string)
    requires ContactsUnique(before)
    requires ContactsExtended(low, before, after, tickets, client, organization, domain)
    ensures ContactsUnique(after)
  {
    hide SenderEmail, Orphan;
    forall c, d | c in after && d in after && c in before && d !in before
      ensures !(after[c].client == after[d].client && after[c].email == after[d].email)
    {
      assert !HasRow(before, c, client, after[d].email);
    }
  }

  lemma StepKeepsContacts(s: State, low: CaseMap, op: Op, t: State)
    requires Inv(s) && Next(s, low, op, t)
    ensures (forall c | c in t.contacts :: c < t.nextContact) && ContactsUnique(t.contacts)
  {
    hide NormalizeDomain, Adopted, ContactsExtended, TableAfter, ClientsAfter, Precheck, SomeBuried;
    if op.Associate? && Answer(s, low, op) in {Done, Broken} {
      assert Answer(s, low, op) == Done ==> NextAssociated(s, low, op, t);
      var domain := AssociatedDomain(s, low, op);
      ExtendedStayUnique(low, s.contacts, t.contacts, s.tickets, op.client, op.organization, domain);
    }
  }

  lemma StepKeeps(s: State, low: CaseMap, op: Op, t: State)
    requires Inv(s) && Next(s, low, op, t)
    ensures Inv(t) && OwnersKept(s.table, t.table)
  {
    StepKeepsContacts(s, low, op, t);
    if Answer(s, low, op) == Done {
      if op.CreateClient? {
        CreateClientKeeps(s, low, op);
      } else {
        OtherStepsKeep(s, low, op);
      }
    }
  }

  lemma InterruptedKeeps(s: State, low: CaseMap, op: Op, t: State)
    requires Inv(s) && Interrupted(s, low, op, t)
    ensures Inv(t) && OwnersKept(s.table, t.table)
  {
    hide PartlyMoved, ContactsExtended;
    var domain := AssociatedDomain(s, low, op);
    ExtendedStayUnique(low, s.contacts, t.contacts, s.tickets, op.client, op.organization, domain);
    if t.table != s.table {
      OtherStepsKeep(s, low, op);
    }
    hide TableAfter, Answer, AssociatedDomain;
  }

  /** A request that is answered, or an association that is interrupted. */
  ghost predicate Moves(s: State, low: CaseMap, op: Op, t: State) {
    Next(s, low, op, t) || Interrupted(s, low, op, t)
  }

  lemma MoveKeeps(s: State, low: CaseMap, op: Op, t: State)
    requires Inv(s) && Moves(s, low, op, t)
    ensures Inv(t) && OwnersKept(s.table, t.table)
  {
    hide Next, Interrupted, Inv, OwnersKept;
    if Next(s, low, op, t) {
      StepKeeps(s, low, op, t);
    } else {
      InterruptedKeeps(s, low, op, t);
    }
  }

  /** The conflict that reactivating a row looks for cannot arise: no other row has its domain. */
  lemma ReactivationNeverConflicts(s: State, low: CaseMap, op: Op)
    requires Inv(s) && op.UpdateDomain?
    ensures Answer(s, low, op) == if Manages(s, op.row, op.organization) then Done else NotFound
  {
  }

  ghost predicate IsRun(states: seq<State>, low: CaseMap, ops: seq<Op>) {
    |states| == |ops| + 1 && forall i | 0 <= i < |ops| :: Moves(states[i], low, ops[i], states[i + 1])
  }

  /**
   Over every run, interrupted associations included, each domain has one row, and the client
   of an active row is not deleted.
   */
  lemma {:induction false} RunKeepsInv(states: seq<State>, low: CaseMap, ops: seq<Op>, i: nat)
    requires IsRun(states, low, ops) && Inv(states[0]) && i < |states|
    ensures Inv(states[i])
  {
    hide Moves, Inv;
    if 0 < i {
      RunKeepsInv(states, low, ops, i - 1);
      MoveKeeps(states[i - 1], low, ops[i - 1], states[i]);
    }
  }

  /** A domain changes hands only if its row is inactive at some moment in between. */
  lemma {:induction false} OwnerChangesOnlyWhileInactive(
    states: seq<State>, low: CaseMap, ops: seq<Op>, row: nat, i: nat, j: nat)
    requires IsRun(states, low, ops) && Inv(states[0]) && i <= j < |states|
    requires row in states[i].table.rows
    ensures row in states[j].table.rows && states[j].table.rows[row].domain == states[i].table.rows[row].domain
    ensures states[j].table.rows[row].client != states[i].table.rows[row].client ==>
      exists k | i <= k < j :: row in states[k].table.rows && !states[k].table.rows[row].active
    decreases j - i
  {
    hide Moves, Inv;
    if i < j {
      RunKeepsInv(states, low, ops, j - 1);
      MoveKeeps(states[j - 1], low, ops[j - 1], states[j]);
      OwnerChangesOnlyWhileInactive(states, low, ops, row, i, j - 1);
    }
  }

  lemma AssociatedRowIsTheClients(s: State, low: CaseMap, op: Op, r: nat)
    requires Inv(s) && op.Associate? && Answer(s, low, op) == Done
    requires Holds(TableAfter(s, low, op), AssociatedDomain(s, low, op), r)
    ensures TableAfter(s, low, op).rows[r].client == op.client
  {
    assert Holds(s.table, AssociatedDomain(s, low, op), r) ==>
      Find(s.table, AssociatedDomain(s, low, op)) == Some(r);
  }

  lemma StillNotBuried(low: CaseMap, before: map<nat, Contact>, after: map<nat, Contact>, tickets: map<Id, Ticket>,
                       client: ClientId, organization: Id, domain: string, email: string)
    requires ContactsExtended(low, before, after, tickets, client, organization, domain) && Buried(after, client, email)
    ensures Buried(before, client, email)
  {
    hide SenderEmail, Orphan;
    var c :| c in after && after[c] == Contact(client, email, true);
    assert c in before;
  }

  lemma DoneMeansNotBuried(s: State, low: CaseMap, op: Op, email: string)
    requires op.Associate? && Answer(s, low, op) == Done
    requires email in OrphanAddresses(low, s.tickets, op.organization, AssociatedDomain(s, low, op))
    ensures !Buried(s.contacts, op.client, email)
  {
    hide NormalizeDomain, OrphanAddresses, Buried;
  }

  lemma FewerOrphans(s: State, low: CaseMap, op: Op, t: State, domain: string)
    requires op.Associate? && PartlyMoved(s, low, op, t, domain)
    ensures OrphanAddresses(low, t.tickets, op.organization, domain)
      <= OrphanAddresses(low, s.tickets, op.organization, domain)
  {
    hide SenderEmail, IsContactFor;
    forall e | e in OrphanAddresses(low, t.tickets, op.organization, domain)
      ensures e in OrphanAddresses(low, s.tickets, op.organization, domain)
    {
      var i :| i in t.tickets && Orphan(t.tickets[i], op.organization, domain) && SenderEmail(low, t.tickets[i]) == e;
      assert t.tickets[i] == s.tickets[i];
    }
  }

  /**
   An association that could have been carried out and was interrupted can be: repeated with nothing
   else changed, it is, and by `NoOrphansAfterAssociation` no orphan is left.
   */
  lemma InterruptedCanBeRepeated(s: State, low: CaseMap, op: Op, t: State)
    requires Inv(s) && Interrupted(s, low, op, t) && Answer(s, low, op) == Done
    ensures Answer(t, low, op) == Done
  {
    hide NormalizeDomain, OrphanAddresses, ContactsExtended, PartlyMoved, TableAfter, Inv;
    var domain := AssociatedDomain(s, low, op);
    if t.table != s.table {
      forall r | Holds(t.table, domain, r) ensures t.table.rows[r].client == op.client {
        AssociatedRowIsTheClients(s, low, op, r);
      }
    }
    if PartlyMoved(s, low, op, t, domain) {
      FewerOrphans(s, low, op, t, domain);
    }
    assert Precheck(t, low, op.unmappedId, op.client, op.organization) == Done;
    forall e | e in OrphanAddresses(low, t.tickets, op.organization, domain) ensures !Buried(t.contacts, op.client, e) {
      DoneMeansNotBuried(s, low, op, e);
      if Buried(t.contacts, op.client, e) {
        StillNotBuried(low, s.contacts, t.contacts, s.tickets, op.client, op.organization, domain, e);
      }
    }
  }

  /** An association that breaks is stuck: tried again with nothing else changed, it breaks again. */
  lemma BrokenAssociationBreaksAgain(s: State, low: CaseMap, op: Op, t: State)
    requires Inv(s) && op.Associate? && Answer(s, low, op) == Broken && Next(s, low, op, t)
    ensures Answer(t, low, op) == Broken
  {
    hide NormalizeDomain, OrphanAddresses;
    assert Precheck(t, low, op.unmappedId, op.client, op.organization) == Done;
    var emails := OrphanAddresses(low, s.tickets, op.organization, AssociatedDomain(s, low, op));
    var e :| e in emails && Buried(s.contacts, op.client, e);
    assert Buried(t.contacts, op.client, e);
  }

  /**
   When an association that passes its checks leaves no live ticket of the organization and
   domain without a client: exactly if no such ticket came from an address that only a deleted
   contact of the client has. Otherwise it moves none of them.
   */
  lemma OrphansGoneIff(s: State, low: CaseMap, op: Op, t: State)
    requires op.Associate? && Precheck(s, low, op.unmappedId, op.client, op.organization) == Done && Next(s, low, op, t)
    ensures
      var domain := NormalizeDomain(low, s.unmapped[op.unmappedId].domain).value;
      var buried := SomeBuried(s.contacts, op.client, OrphanAddresses(low, s.tickets, op.organization, domain));
      && ((forall i | i in t.tickets :: !Orphan(t.tickets[i], op.organization, domain)) <==> !buried)
      && (buried ==> t.tickets == s.tickets)
  {
    var domain := NormalizeDomain(low, s.unmapped[op.unmappedId].domain).value;
    hide NormalizeDomain, Precheck, SenderEmail;
    var emails := OrphanAddresses(low, s.tickets, op.organization, domain);
    if SomeBuried(s.contacts, op.client, emails) {
      assert Answer(s, low, op) == Broken && NextBroken(s, low, op, t);
      var e :| e in emails && Buried(s.contacts, op.client, e);
      var i :| i in s.tickets && Orphan(s.tickets[i], op.organization, domain);
      assert Orphan(t.tickets[i], op.organization, domain);
    } else {
      NoOrphansAfterAssociation(s, low, op, t);
    }
  }

  /** After an association, no live ticket of that organization and domain lacks a client. */
  lemma NoOrphansAfterAssociation(s: State, low: CaseMap, op: Op, t: State)
    requires op.Associate? && Answer(s, low, op) == Done && Next(s, low, op, t)
    ensures
      var domain := AssociatedDomain(s, low, op);
      && (forall i | i in t.tickets :: !Orphan(t.tickets[i], op.organization, domain))
      && exists id :: Holds(t.table, domain, id) && t.table.rows[id].active && t.table.rows[id].client == op.client
  {
    var domain := AssociatedDomain(s, low, op);
    forall i | i in t.tickets ensures !Orphan(t.tickets[i], op.organization, domain) {
      assert i in s.tickets;
    }
    var row := DomainRow(domain, op.client, true, Verified(s.table, domain));
    var id := if Find(s.table, domain).Some? then Find(s.table, domain).value else s.table.next;
    assert Holds(Put(s.table, row), domain, id);
  }
}
