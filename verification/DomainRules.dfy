/** What each request about clients, domains and contacts does, row by row. */
module DomainRules {
  import opened ClientDomains
  import opened DomainNames
  import opened Options
  import opened Text

  predicate IsLive(s: State, client: ClientId, organization: Id) {
    client in s.clients && s.clients[client].organization == organization && !s.clients[client].deleted
  }

  /** Nothing else than clients and domain rows changes. */
  predicate KeepsTheRest(s: State, t: State) {
    && t.contacts == s.contacts && t.nextContact == s.nextContact
    && t.tickets == s.tickets && t.messages == s.messages && t.unmapped == s.unmapped
  }

  /** The domain has this row afterwards, in the place of the one it had, and no other row changes. */
  ghost predicate OnlyRow(before: Table, after: Table, row: DomainRow) {
    && (exists id :: id in after.rows && after.rows[id] == row)
    && (forall id | id in before.rows ::
          id in after.rows && after.rows[id] == if before.rows[id].domain == row.domain then row else before.rows[id])
    && (forall id | id in after.rows :: id in before.rows || after.rows[id] == row)
  }

  lemma PutChangesOnlyRow(t: Table, row: DomainRow)
    requires OneRowEach(t)
    ensures OnlyRow(t, Put(t, row), row)
  {
    var id := if Find(t, row.domain).Some? then Find(t, row.domain).value else t.next;
    assert Put(t, row).rows[id] == row;
    forall i | i in t.rows && t.rows[i].domain == row.domain ensures Find(t, row.domain) == Some(i) {
      assert Holds(t, row.domain, i);
    }
  }

  /** Some row of a domain has a property; by `OneRowEach` it is the only one. */
  ghost predicate WasVerified(t: Table, domain: string) {
    exists id :: id in t.rows && t.rows[id].domain == domain && t.rows[id].verified
  }

  ghost predicate IsTaken(t: Table, domain: string) {
    exists id :: id in t.rows && t.rows[id].domain == domain && t.rows[id].active
  }

  lemma FreeIsNotTaken(t: Table, domain: string)
    ensures Free(t, domain) <==> !IsTaken(t, domain)
  {
    if !Free(t, domain) {
      var id :| Holds(t, domain, id) && t.rows[id].active;
      assert id in t.rows && t.rows[id].domain == domain && t.rows[id].active;
    }
    if IsTaken(t, domain) {
      var id :| id in t.rows && t.rows[id].domain == domain && t.rows[id].active;
      assert Holds(t, domain, id);
    }
  }

  lemma VerifiedIff(t: Table, domain: string)
    requires OneRowEach(t)
    ensures Verified(t, domain) <==> WasVerified(t, domain)
  {
    if WasVerified(t, domain) {
      var id :| id in t.rows && t.rows[id].domain == domain && t.rows[id].verified;
      assert Holds(t, domain, id);
    }
  }

  // ----- Domains -----

  function OrElse(option: Option<bool>, otherwise: bool): bool {
    match option
    case Some(b) => b
    case None => otherwise
  }

  lemma RulesOfCreateDomain(s: State, low: CaseMap, client: ClientId, org: Id, text: string,
                            isActive: Option<bool>, isVerified: Option<bool>, t: State)
    requires Inv(s) && Next(s, low, Op.CreateDomain(client, org, text, isActive, isVerified), t)
    ensures
      var r := Answer(s, low, Op.CreateDomain(client, org, text, isActive, isVerified));
      var name := NormalizeDomain(low, text);
      && r == (if !IsLive(s, client, org) then NotFound else if name.None? then Invalid
               else if IsTaken(s.table, name.value) then Conflict else Done)
      && (r != Done ==> t == s)
      && (r == Done ==>
            && t.clients == s.clients && t.nextClient == s.nextClient && KeepsTheRest(s, t)
            && OnlyRow(s.table, t.table,
                 DomainRow(name.value, client, OrElse(isActive, true),
                           OrElse(isVerified, WasVerified(s.table, name.value)))))
  {
    hide NormalizeDomain, OnlyRow, IsTaken, WasVerified, Free, Verified, Put, Find;
    var name := NormalizeDomain(low, text);
    if name.Some? {
      FreeIsNotTaken(s.table, name.value);
      VerifiedIff(s.table, name.value);
      PutChangesOnlyRow(s.table, DomainRow(name.value, client, Given(isActive, true),
                                           Given(isVerified, Verified(s.table, name.value))));
    }
  }

  lemma RulesOfUpdateDomain(s: State, low: CaseMap, row: nat, org: Id,
                            isActive: Option<bool>, isVerified: Option<bool>, t: State)
    requires Inv(s) && Next(s, low, Op.UpdateDomain(row, org, isActive, isVerified), t)
    ensures
      var r := Answer(s, low, Op.UpdateDomain(row, org, isActive, isVerified));
      && r == (if row in s.table.rows && IsLive(s, s.table.rows[row].client, org) then Done else NotFound)
      && t == if r != Done then s else
           var was := s.table.rows[row];
           var now := DomainRow(was.domain, was.client, OrElse(isActive, was.active), OrElse(isVerified, was.verified));
           s.(table := s.table.(rows := s.table.rows[row := now]))
  {
    ReactivationNeverConflicts(s, low, Op.UpdateDomain(row, org, isActive, isVerified));
    hide ActiveElsewhere, OneRowEach, ActiveOwnersLive, ContactsUnique;
  }

  lemma RulesOfDeactivateDomain(s: State, low: CaseMap, row: nat, org: Id, t: State)
    requires Next(s, low, Op.DeactivateDomain(row, org), t)
    ensures
      var r := Answer(s, low, Op.DeactivateDomain(row, org));
      && r == (if row in s.table.rows && IsLive(s, s.table.rows[row].client, org) then Done else NotFound)
      && t == if r != Done then s else
           var was := s.table.rows[row];
           s.(table := s.table.(rows := s.table.rows[row := DomainRow(was.domain, was.client, false, was.verified)]))
  {
  }

  lemma RulesOfDeleteContact(s: State, low: CaseMap, c: nat, org: Id, t: State)
    requires Next(s, low, Op.DeleteContact(c, org), t)
    ensures
      var r := Answer(s, low, Op.DeleteContact(c, org));
      && (r == if c in s.contacts && !s.contacts[c].deleted && IsLive(s, s.contacts[c].client, org) then Done
               else NotFound)
      && t == if r != Done then s else
           s.(contacts := s.contacts[c := Contact(s.contacts[c].client, s.contacts[c].email, true)])
  {
  }

  // ----- Clients -----

  lemma RulesOfDeleteClient(s: State, low: CaseMap, id: ClientId, org: Id, t: State)
    requires Next(s, low, Op.DeleteClient(id, org), t)
    ensures
      var r := Answer(s, low, Op.DeleteClient(id, org));
      && (r == if IsLive(s, id, org) then Done else NotFound)
      && (r != Done ==> t == s)
      && (r == Done ==>
            && KeepsTheRest(s, t) && t.nextClient == s.nextClient && t.table.next == s.table.next
            && t.clients == s.clients[id := Client(org, true)]
            && t.table.rows.Keys == s.table.rows.Keys
            && forall i | i in s.table.rows ::
                 var was := s.table.rows[i];
                 t.table.rows[i] == DomainRow(was.domain, was.client, was.active && was.client != id, was.verified))
  {
  }

  /** The rows of the domains named are the client's, active and not verified; no other row changes. */
  ghost predicate TakenOver(before: Table, after: Table, names: seq<string>, client: ClientId) {
    && (forall i | 0 <= i < |names| :: HasRowOf(after, DomainRow(names[i], client, true, false)))
    && (forall id | id in before.rows ::
          && id in after.rows
          && after.rows[id] ==
             if before.rows[id].domain in names then DomainRow(before.rows[id].domain, client, true, false)
             else before.rows[id])
    && (forall id | id in after.rows && id !in before.rows ::
          after.rows[id].domain in names && after.rows[id] == DomainRow(after.rows[id].domain, client, true, false))
  }

  ghost predicate HasRowOf(t: Table, row: DomainRow) {
    exists id :: id in t.rows && t.rows[id] == row
  }

  lemma TakenOverOneMore(t: Table, mid: Table, names: seq<string>, name: string, client: ClientId, after: Table)
    requires TakenOver(t, mid, names, client) && OnlyRow(mid, after, DomainRow(name, client, true, false))
    ensures TakenOver(t, after, names + [name], client)
  {
    var all, row := names + [name], DomainRow(name, client, true, false);
    assert forall x :: x in all <==> x in names || x == name;
    forall i | 0 <= i < |all| ensures HasRowOf(after, DomainRow(all[i], client, true, false)) {
      if i < |names| {
        assert HasRowOf(mid, DomainRow(names[i], client, true, false));
        var id :| id in mid.rows && mid.rows[id] == DomainRow(names[i], client, true, false);
        assert after.rows[id] == mid.rows[id];
      } else {
        var id :| id in after.rows && after.rows[id] == row;
      }
    }
  }

  lemma {:induction false} PutAllTakesOver(
    t: Table, names: seq<string>, client: ClientId, clients: map<ClientId, Client>)
    requires OneRowEach(t) && ActiveOwnersLive(t, clients)
    requires client in clients && !clients[client].deleted
    requires forall i | 0 <= i < |names| :: Free(t, names[i])
    ensures TakenOver(t, PutAll(t, names, client), names, client)
  {
    hide TakenOver, OnlyRow, Put, Free, OneRowEach, ActiveOwnersLive;
    if names == [] {
      NothingTakenOver(t, client);
    } else {
      var n := |names| - 1;
      PutAllTakesOver(t, names[..n], client, clients);
      PutAllKeeps(t, names[..n], client, clients);
      var mid := PutAll(t, names[..n], client);
      PutChangesOnlyRow(mid, DomainRow(names[n], client, true, false));
      TakenOverOneMore(t, mid, names[..n], names[n], client, PutAll(t, names, client));
      assert names == names[..n] + [names[n]];
    }
  }

  lemma NothingTakenOver(t: Table, client: ClientId)
    ensures TakenOver(t, t, [], client)
  {
  }

  lemma RulesOfCreateClient(s: State, low: CaseMap, org: Id, texts: seq<string>, t: State)
    requires Inv(s) && Next(s, low, Op.CreateClient(org, texts), t)
    ensures
      var r, names := Answer(s, low, Op.CreateClient(org, texts)), NormalizeList(low, texts);
      && r == (if names.None? then Invalid
               else if exists i | 0 <= i < |names.value| :: IsTaken(s.table, names.value[i]) then Conflict
               else Done)
      && (r != Done ==> t == s)
      && (r == Done ==>
            && KeepsTheRest(s, t)
            && t.clients == s.clients[s.nextClient := Client(org, false)] && t.nextClient == s.nextClient + 1
            && TakenOver(s.table, t.table, names.value, s.nextClient))
  {
    hide NormalizeList, TakenOver, IsTaken, Free, PutAll, OneRowEach, ActiveOwnersLive, ContactsUnique;
    var names := NormalizeList(low, texts);
    if names.Some? {
      forall i | 0 <= i < |names.value| ensures Free(s.table, names.value[i]) <==> !IsTaken(s.table, names.value[i]) {
        FreeIsNotTaken(s.table, names.value[i]);
      }
      if Answer(s, low, Op.CreateClient(org, texts)) == Done {
        NewClientOwnsNothing(s, org);
        PutAllTakesOver(s.table, names.value, s.nextClient, ClientsAfter(s, Op.CreateClient(org, texts)));
      }
    }
  }

  lemma NewClientOwnsNothing(s: State, org: Id)
    requires Inv(s)
    ensures ActiveOwnersLive(s.table, s.clients[s.nextClient := Client(org, false)])
  {
  }

  // ----- Associations -----

  /** A live ticket of the organization, seen from the domain, that has no client. */
  predicate HasNoClient(t: Ticket, org: Id, domain: string) {
    t.organization == org && t.senderDomain == Some(domain) && t.client == None && !t.deleted
  }

  /** The address a ticket came from, trimmed and in lower case; empty if there is none. */
  function Address(low: CaseMap, t: Ticket): string {
    match t.senderEmail
    case Some(e) => MapCase(low, Trim(e))
    case None => ""
  }

  /** What an association that is carried out does to the tickets and their messages. */
  ghost predicate TicketsMoved(s: State, low: CaseMap, client: ClientId, org: Id, domain: string, t: State) {
    && t.tickets.Keys == s.tickets.Keys && t.messages.Keys == s.messages.Keys
    && (forall i | i in s.tickets ::
          var was, now := s.tickets[i], t.tickets[i];
          if !HasNoClient(was, org, domain) then now == was
          else
            && now == Ticket(was.organization, was.senderDomain, was.senderEmail, Some(client), now.contact,
                             was.deleted)
            && (now.contact == None <==> Address(low, was) == "")
            && (now.contact != None ==>
                  now.contact.value in t.contacts
                  && t.contacts[now.contact.value] == Contact(client, Address(low, was), false)))
    && (forall m | m in s.messages ::
          var was := s.messages[m];
          var moved := was.ticket in s.tickets && HasNoClient(s.tickets[was.ticket], org, domain);
          t.messages[m] ==
            if moved && was.inbound && was.author == None
            then Message(was.ticket, was.inbound, t.tickets[was.ticket].contact) else was)
  }

  lemma MovedAsAdopted(s: State, low: CaseMap, client: ClientId, org: Id, domain: string, t: State)
    requires Adopted(low, s.tickets, t.tickets, t.contacts, client, org, domain)
    requires Credited(s.messages, t.messages, s.tickets, t.tickets, org, domain)
    ensures TicketsMoved(s, low, client, org, domain, t)
  {
    hide MapCase, Trim;
  }

  /** An address of a ticket without a client belongs to a deleted contact of the client. */
  ghost predicate MeetsDeletedContact(s: State, low: CaseMap, client: ClientId, org: Id, domain: string) {
    exists i, c | i in s.tickets && c in s.contacts ::
      && HasNoClient(s.tickets[i], org, domain)
      && Address(low, s.tickets[i]) != ""
      && s.contacts[c] == Contact(client, Address(low, s.tickets[i]), true)
  }

  lemma BuriedIff(s: State, low: CaseMap, client: ClientId, org: Id, domain: string)
    ensures SomeBuried(s.contacts, client, OrphanAddresses(low, s.tickets, org, domain))
      <==> MeetsDeletedContact(s, low, client, org, domain)
  {
    hide MapCase, Trim;
    if SomeBuried(s.contacts, client, OrphanAddresses(low, s.tickets, org, domain)) {
      var e :| e in OrphanAddresses(low, s.tickets, org, domain) && Buried(s.contacts, client, e);
      var i :| i in s.tickets && Orphan(s.tickets[i], org, domain) && SenderEmail(low, s.tickets[i]) == e && e != "";
      var c :| c in s.contacts && s.contacts[c] == Contact(client, e, true);
      assert HasNoClient(s.tickets[i], org, domain) && Address(low, s.tickets[i]) == e;
    }
    if MeetsDeletedContact(s, low, client, org, domain) {
      var i, c :| i in s.tickets && c in s.contacts && HasNoClient(s.tickets[i], org, domain)
        && Address(low, s.tickets[i]) != "" && s.contacts[c] == Contact(client, Address(low, s.tickets[i]), true);
      assert Orphan(s.tickets[i], org, domain) && SenderEmail(low, s.tickets[i]) == Address(low, s.tickets[i]);
      assert Buried(s.contacts, client, Address(low, s.tickets[i]));
    }
  }

  /** Another client has the domain. */
  ghost predicate IsTakenByOther(t: Table, domain: string, client: ClientId) {
    exists id :: id in t.rows && t.rows[id].domain == domain && t.rows[id].active && t.rows[id].client != client
  }

  predicate IsOpen(s: State, id: Id, org: Id) {
    id in s.unmapped && s.unmapped[id].organization == org && s.unmapped[id].resolvedTo == None
  }

  lemma AnswersOfAssociate(s: State, low: CaseMap, id: Id, client: ClientId, org: Id)
    ensures
      var r := Answer(s, low, Op.Associate(id, client, org));
      if !IsOpen(s, id, org) || !IsLive(s, client, org) then r == NotFound
      else
        var name := NormalizeDomain(low, s.unmapped[id].domain);
        if name.None? then r == Invalid
        else if IsTakenByOther(s.table, name.value, client) then r == Conflict
        else r == if MeetsDeletedContact(s, low, client, org, name.value) then Broken else Done
  {
    hide NormalizeDomain, SomeBuried, MeetsDeletedContact, OrphanAddresses;
    if IsOpen(s, id, org) && NormalizeDomain(low, s.unmapped[id].domain).Some? {
      var name := NormalizeDomain(low, s.unmapped[id].domain).value;
      BuriedIff(s, low, client, org, name);
      OtherIff(s.table, name, client);
    }
    hide IsTakenByOther, Holds;
  }

  lemma OtherIff(t: Table, domain: string, client: ClientId)
    ensures IsTakenByOther(t, domain, client)
      <==> exists r :: Holds(t, domain, r) && t.rows[r].active && t.rows[r].client != client
  {
    if IsTakenByOther(t, domain, client) {
      var id :| id in t.rows && t.rows[id].domain == domain && t.rows[id].active && t.rows[id].client != client;
      assert Holds(t, domain, id);
    }
    if r :| Holds(t, domain, r) && t.rows[r].active && t.rows[r].client != client {
      assert r in t.rows && t.rows[r].domain == domain;
    }
  }

  /** What an association that is carried out leaves. */
  lemma RulesOfAssociate(s: State, low: CaseMap, id: Id, client: ClientId, org: Id, t: State)
    requires Inv(s) && Answer(s, low, Op.Associate(id, client, org)) == Done
    requires Next(s, low, Op.Associate(id, client, org), t)
    ensures
      var domain := NormalizeDomain(low, s.unmapped[id].domain).value;
      && t.clients == s.clients && t.nextClient == s.nextClient
      && t.unmapped == s.unmapped[id := Unmapped(org, s.unmapped[id].domain, Some(client))]
      && OnlyRow(s.table, t.table, DomainRow(domain, client, true, WasVerified(s.table, domain)))
      && TicketsMoved(s, low, client, org, domain, t)
      && (forall c | c in s.contacts :: c in t.contacts && t.contacts[c] == s.contacts[c])
  {
    hide NormalizeDomain, OnlyRow, WasVerified, Verified, Put, Adopted, Credited, TicketsMoved;
    hide SomeBuried, OrphanAddresses;
    var domain := NormalizeDomain(low, s.unmapped[id].domain).value;
    VerifiedIff(s.table, domain);
    PutChangesOnlyRow(s.table, DomainRow(domain, client, true, Verified(s.table, domain)));
    assert NextAssociated(s, low, Op.Associate(id, client, org), t);
    MovedAsAdopted(s, low, client, org, domain, t);
  }
}
