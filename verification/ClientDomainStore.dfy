/** The client and client-domain services working on their tables. */
module ClientDomainStore {
  import opened ClientDomains
  import opened DomainNames
  import opened Options
  import opened Text

  class DomainStore {
    var clients: map<ClientId, Client>
    var nextClient: nat
    var rows: map<nat, DomainRow>
    var nextRow: nat
    var contacts: map<nat, Contact>
    var nextContact: nat
    var tickets: map<Id, Ticket>
    var messages: map<Id, Message>
    var unmapped: map<Id, Unmapped>
    const low: CaseMap

    constructor (low: CaseMap, tickets: map<Id, Ticket>, messages: map<Id, Message>, unmapped: map<Id, Unmapped>)
      ensures Inv(Current()) && this.low == low
      ensures this.tickets == tickets && this.messages == messages && this.unmapped == unmapped
    {
      this.low, this.tickets, this.messages, this.unmapped := low, tickets, messages, unmapped;
      clients, nextClient, rows, nextRow, contacts, nextContact := map[], 0, map[], 0, map[], 0;
    }

    ghost function Current(): State
      reads this
    {
      State(clients, nextClient, Table(rows, nextRow), contacts, nextContact, tickets, messages, unmapped)
    }

    // ----- Lookups -----

    predicate ClientExists(client: ClientId, organization: Id)
      reads this
    {
      client in clients && clients[client].organization == organization && !clients[client].deleted
    }

    predicate DomainForUser(row: nat, organization: Id)
      reads this
    {
      row in rows && ClientExists(rows[row].client, organization)
    }

    method FindUnique(domain: string) returns (r: Option<nat>)
      requires OneRowEach(Current().table)
      ensures r == Find(Current().table, domain)
    {
      ghost var t := Current().table;
      if id :| id in rows && rows[id].domain == domain {
        assert Holds(t, domain, id);
        return Some(id);
      }
      assert forall id :: !Holds(t, domain, id);
      return None;
    }

    /** Replaces or adds the row of a domain. */
    method Upsert(row: DomainRow)
      requires OneRowEach(Current().table)
      modifies this`rows, this`nextRow
      ensures Current().table == Put(old(Current().table), row)
    {
      var existing := FindUnique(row.domain);
      if existing.Some? {
        rows := rows[existing.value := row];
      } else {
        rows, nextRow := rows[nextRow := row], nextRow + 1;
      }
    }

    // ----- Clients -----

    method AllFree(names: seq<string>) returns (free: bool)
      requires OneRowEach(Current().table)
      ensures free <==> forall i | 0 <= i < |names| :: Free(Current().table, names[i])
    {
      hide Find, OneRowEach;
      ghost var t := Current().table;
      for i := 0 to |names|
        invariant forall j | 0 <= j < i :: Free(t, names[j])
      {
        var existing := FindUnique(names[i]);
        if existing.Some? && rows[existing.value].active {
          assert Holds(t, names[i], existing.value);
          return false;
        }
        assert Free(t, names[i]) by { OnlyRowDecides(t, names[i]); }
      }
      return true;
    }

    /** Gives free domains to a client. */
    method TakeOver(names: seq<string>, client: ClientId)
      requires OneRowEach(Current().table) && ActiveOwnersLive(Current().table, clients)
      requires client in clients && !clients[client].deleted
      requires forall i | 0 <= i < |names| :: Free(Current().table, names[i])
      modifies this`rows, this`nextRow
      ensures Current().table == PutAll(old(Current()).table, names, client)
    {
      hide Put, Free, OneRowEach, ActiveOwnersLive;
      ghost var t := Current().table;
      for i := 0 to |names|
        invariant Current().table == PutAll(t, names[..i], client)
        invariant OneRowEach(Current().table)
      {
        PutAllKeeps(t, names[..i + 1], client, clients);
        assert names[..i + 1][..i] == names[..i];
        Upsert(DomainRow(names[i], client, true, false));
      }
      assert names[..|names|] == names;
    }

    method CreateClient(organization: Id, domains: seq<string>) returns (r: Outcome)
      requires Inv(Current())
      modifies this
      ensures r == Answer(old(Current()), low, Op.CreateClient(organization, domains))
      ensures Next(old(Current()), low, Op.CreateClient(organization, domains), Current())
    {
      hide NormalizeList, ContactsUnique, Free, PutAll;
      var names := NormalizeList(low, domains);
      if names.None? { return Invalid; }
      var free := AllFree(names.value);
      if !free { return Conflict; }
      var created := nextClient;
      clients, nextClient := clients[created := Client(organization, false)], nextClient + 1;
      TakeOver(names.value, created);
      return Done;
    }

    method DeleteClient(client: ClientId, organization: Id) returns (r: Outcome)
      modifies this
      ensures r == Answer(old(Current()), low, Op.DeleteClient(client, organization))
      ensures Next(old(Current()), low, Op.DeleteClient(client, organization), Current())
    {
      if !ClientExists(client, organization) { return NotFound; }
      clients := clients[client := clients[client].(deleted := true)];
      rows := map r | r in rows ::
        if rows[r].client == client && rows[r].active then rows[r].(active := false) else rows[r];
      return Done;
    }

    // ----- Domains -----

    method CreateDomain(client: ClientId, organization: Id, text: string,
                        isActive: Option<bool>, isVerified: Option<bool>)
      returns (r: Outcome)
      requires Inv(Current())
      modifies this
      ensures r == Answer(old(Current()), low, Op.CreateDomain(client, organization, text, isActive, isVerified))
      ensures Next(old(Current()), low, Op.CreateDomain(client, organization, text, isActive, isVerified), Current())
    {
      hide NormalizeDomain;
      if !ClientExists(client, organization) { return NotFound; }
      var domain := NormalizeDomain(low, text);
      if domain.None? { return Invalid; }
      var existing := FindUnique(domain.value);
      ghost var t := Current().table;
      if existing.Some? && rows[existing.value].active {
        assert Holds(t, domain.value, existing.value);
        return Conflict;
      }
      assert Free(t, domain.value);
      var wasVerified := existing.Some? && rows[existing.value].verified;
      Upsert(DomainRow(domain.value, client, Given(isActive, true), Given(isVerified, wasVerified)));
      return Done;
    }

    method UpdateDomain(row: nat, organization: Id, isActive: Option<bool>, isVerified: Option<bool>)
      returns (r: Outcome)
      modifies this
      ensures r == Answer(old(Current()), low, Op.UpdateDomain(row, organization, isActive, isVerified))
      ensures Next(old(Current()), low, Op.UpdateDomain(row, organization, isActive, isVerified), Current())
    {
      if !DomainForUser(row, organization) { return NotFound; }
      var existing := rows[row];
      if isActive == Some(true) && !existing.active {
        ghost var t := Current().table;
        if other :| other in rows && rows[other].domain == existing.domain && rows[other].active && other != row {
          assert Holds(t, existing.domain, other);
          return Conflict;
        }
      }
      rows := rows[row := existing.(active := Given(isActive, existing.active),
                                    verified := Given(isVerified, existing.verified))];
      return Done;
    }

    method DeactivateDomain(row: nat, organization: Id) returns (r: Outcome)
      modifies this
      ensures r == Answer(old(Current()), low, Op.DeactivateDomain(row, organization))
      ensures Next(old(Current()), low, Op.DeactivateDomain(row, organization), Current())
    {
      if !DomainForUser(row, organization) { return NotFound; }
      rows := rows[row := rows[row].(active := false)];
      return Done;
    }

    // ----- Associating an unmapped domain -----

    method OrphanIds(organization: Id, domain: string) returns (ids: seq<Id>)
      ensures forall i :: i in ids <==> i in tickets && Orphan(tickets[i], organization, domain)
      ensures |ids| == |Orphans(tickets, organization, domain)|
    {
      ids := [];
      var rest := tickets.Keys;
      ghost var found: set<Id> := {};
      while rest != {}
        invariant rest <= tickets.Keys && |ids| == |found|
        invariant forall i :: i in ids <==> i in found
        invariant forall i :: i in found <==> i in tickets && i !in rest && Orphan(tickets[i], organization, domain)
        decreases rest
      {
        var id :| id in rest;
        if Orphan(tickets[id], organization, domain) { ids, found := ids + [id], found + {id}; }
        rest := rest - {id};
      }
      assert found == Orphans(tickets, organization, domain);
    }

    method DeleteContact(contact: nat, organization: Id) returns (r: Outcome)
      modifies this
      ensures r == Answer(old(Current()), low, Op.DeleteContact(contact, organization))
      ensures Next(old(Current()), low, Op.DeleteContact(contact, organization), Current())
    {
      if !(contact in contacts && !contacts[contact].deleted && ClientExists(contacts[contact].client, organization)) {
        return NotFound;
      }
      contacts := contacts[contact := contacts[contact].(deleted := true)];
      return Done;
    }

    /**
     A live contact of the client with an address, created if there is none; but the table
     refuses a second row beside a deleted one.
     */
    method ContactFor(client: ClientId, email: string) returns (r: Option<nat>)
      requires ContactsUnique(contacts) && forall c | c in contacts :: c < nextContact
      modifies this`contacts, this`nextContact
      ensures ContactsUnique(contacts) && forall c | c in contacts :: c < nextContact
      ensures r.None? <==> Buried(old(contacts), client, email)
      ensures r.None? ==> contacts == old(contacts)
      ensures r.Some? ==>
        var c := r.value;
        && IsContactFor(contacts, c, client, email)
        && (|| (contacts == old(contacts) && c in old(contacts))
            || (c !in old(contacts) && contacts == old(contacts)[c := Contact(client, email, false)]
                && forall b | b in old(contacts) :: !HasRow(old(contacts), b, client, email)))
    {
      if found :| found in contacts && contacts[found] == Contact(client, email, false) {
        return Some(found);
      }
      if row :| row in contacts && contacts[row].client == client && contacts[row].email == email {
        assert contacts[row] == Contact(client, email, true);
        return None;
      }
      var c := nextContact;
      contacts, nextContact := contacts[c := Contact(client, email, false)], nextContact + 1;
      return Some(c);
    }

    /** One address more in the book. */
    method AddAddress(book: map<string, nat>, email: string, client: ClientId,
                      ghost before: map<nat, Contact>, ghost emails: seq<string>)
      returns (more: Option<map<string, nat>>)
      requires BookFits(book, before, contacts, emails, client)
      requires ContactsUnique(contacts) && forall c | c in contacts :: c < nextContact
      modifies this`contacts, this`nextContact
      ensures ContactsUnique(contacts) && forall c | c in contacts :: c < nextContact
      ensures more.Some? ==> BookFits(more.value, before, contacts, emails + [email], client)
      ensures more.None? ==>
        email != "" && Buried(before, client, email) && BookFits(book, before, contacts, emails, client)
    {
      hide BookFits;
      if email != "" && email !in book {
        ghost var mid := contacts;
        var c := ContactFor(client, email);
        BookKnowsBuried(book, before, mid, emails, client, email);
        if c.None? { return None; }
        BookGrows(book, before, mid, contacts, emails, client, email, c.value);
        return Some(book[email := c.value]);
      }
      BookStays(book, before, contacts, emails, client, email);
      return Some(book);
    }

    /** The contacts of the senders, by address; nothing if one of them cannot be had. */
    method ContactBook(ids: seq<Id>, client: ClientId) returns (r: Option<map<string, nat>>)
      requires forall i | i in ids :: i in tickets
      requires ContactsUnique(contacts) && forall c | c in contacts :: c < nextContact
      modifies this`contacts, this`nextContact
      ensures ContactsUnique(contacts) && forall c | c in contacts :: c < nextContact
      ensures r.Some? ==> BookFits(r.value, old(contacts), contacts, Addresses(low, tickets, ids), client)
      ensures r.None? ==>
        exists k: nat, book :: StopsAt(k, book, low, tickets, ids, old(contacts), contacts, client)
    {
      var book := map[];
      assert BookFits(book, contacts, contacts, [], client);
      hide BookFits, SenderEmail, ContactsUnique, Buried;
      for k := 0 to |ids|
        invariant BookFits(book, old(contacts), contacts, Addresses(low, tickets, ids[..k]), client)
        invariant ContactsUnique(contacts) && forall c | c in contacts :: c < nextContact
      {
        var email := SenderEmail(low, tickets[ids[k]]);
        var more := AddAddress(book, email, client, old(contacts), Addresses(low, tickets, ids[..k]));
        if more.None? {
          assert StopsAt(k, book, low, tickets, ids, old(contacts), contacts, client);
          return None;
        }
        book := more.value;
        assert Addresses(low, tickets, ids[..k + 1]) == Addresses(low, tickets, ids[..k]) + [email];
      }
      assert ids[..|ids|] == ids;
      return Some(book);
    }

    /** One ticket, and its messages. */
    method ReassociateTicket(id: Id, client: ClientId, book: map<string, nat>)
      requires id in tickets
      modifies this`tickets, this`messages
      ensures tickets == old(tickets)[id := Moved(old(tickets)[id], client, book, low)]
      ensures messages.Keys == old(messages).Keys
      ensures forall m | m in messages ::
        messages[m] == WithAuthor(old(messages)[m], old(messages)[m].ticket == id, tickets[id].contact)
    {
      var contact := Moved(tickets[id], client, book, low).contact;
      tickets := tickets[id := Moved(tickets[id], client, book, low)];
      if contact.Some? {
        messages := map m | m in messages ::
          if messages[m].ticket == id && messages[m].inbound && messages[m].author.None?
          then messages[m].(author := contact) else messages[m];
      }
    }

    method Reassociate(ids: seq<Id>, client: ClientId, book: map<string, nat>)
      requires forall i | i in ids :: i in tickets
      modifies this`tickets, this`messages
      ensures tickets.Keys == old(tickets).Keys && messages.Keys == old(messages).Keys
      ensures forall i | i in old(tickets) :: AfterMove(low, tickets, old(tickets), i, i in ids, client, book)
      ensures forall m | m in messages ::
        AfterCredit(messages[m], old(messages)[m], ids, old(tickets), client, book, low)
    {
      hide AfterCredit, WithAuthor, Moved;
      ghost var tickets0, messages0 := tickets, messages;
      assert forall m | m in messages :: AfterCredit(messages[m], messages[m], [], tickets, client, book, low) by {
        forall m | m in messages ensures AfterCredit(messages[m], messages[m], [], tickets, client, book, low) {
          NothingCredited(messages[m], tickets, client, book, low);
        }
      }
      assert ids[..0] == [];
      for k := 0 to |ids|
        invariant tickets.Keys == tickets0.Keys && messages.Keys == messages0.Keys
        invariant forall i | i in tickets0 :: AfterMove(low, tickets, tickets0, i, i in ids[..k], client, book)
        invariant forall m | m in messages ::
          AfterCredit(messages[m], messages0[m], ids[..k], tickets0, client, book, low)
      {
        var id := ids[k];
        assert ids[..k + 1] == ids[..k] + [id];
        MovedTwice(tickets0[id], client, book, low);
        ghost var messages1 := messages;
        assert AfterMove(low, tickets, tickets0, id, id in ids[..k], client, book);
        ReassociateTicket(id, client, book);
        forall m | m in messages
          ensures AfterCredit(messages[m], messages0[m], ids[..k + 1], tickets0, client, book, low)
        {
          CreditOneMore(messages1[m], messages0[m], ids[..k], id, tickets0, client, book, low);
        }
      }
      assert ids[..|ids|] == ids;
    }

    method CheckAssociation(unmappedId: Id, client: ClientId, organization: Id) returns (r: Outcome)
      requires Inv(Current())
      ensures r == Precheck(Current(), low, unmappedId, client, organization)
    {
      if !(unmappedId in unmapped && unmapped[unmappedId].organization == organization
           && unmapped[unmappedId].resolvedTo.None?) {
        return NotFound;
      }
      if !ClientExists(client, organization) { return NotFound; }
      var domain := NormalizeDomain(low, unmapped[unmappedId].domain);
      if domain.None? { return Invalid; }
      var existing := FindUnique(domain.value);
      ghost var t := Current().table;
      if existing.Some? {
        assert Holds(t, domain.value, existing.value);
        if rows[existing.value].active && rows[existing.value].client != client { return Conflict; }
      }
      return Done;
    }

    /** The contacts of the orphans of a domain, unless one of them cannot be had. */
    method OrphanBook(ids: seq<Id>, client: ClientId, organization: Id, domain: string)
      returns (book: Option<map<string, nat>>)
      requires forall i :: i in ids <==> i in tickets && Orphan(tickets[i], organization, domain)
      requires ContactsUnique(contacts) && forall c | c in contacts :: c < nextContact
      modifies this`contacts, this`nextContact
      ensures forall c | c in contacts :: c < nextContact
      ensures ContactsExtended(low, old(contacts), contacts, tickets, client, organization, domain)
      ensures book.None? <==> SomeBuried(old(contacts), client, OrphanAddresses(low, tickets, organization, domain))
      ensures book.Some? ==>
        && BookFits(book.value, old(contacts), contacts, Addresses(low, tickets, ids), client)
        && book.value.Keys == OrphanAddresses(low, tickets, organization, domain)
    {
      hide BookFits, SenderEmail, ContactsExtended, OrphanAddresses, Orphan, Buried;
      ghost var contacts0 := contacts;
      book := ContactBook(ids, client);
      if book.None? {
        ghost var k: nat, partial :| StopsAt(k, partial, low, tickets, ids, contacts0, contacts, client);
        BookExtends(low, tickets, ids[..k], partial, contacts0, contacts, client, organization, domain);
        OrphanHasAddress(low, tickets, ids[k], organization, domain);
      } else {
        BookExtends(low, tickets, ids, book.value, contacts0, contacts, client, organization, domain);
        BookIsOfOrphans(low, tickets, ids, book.value, contacts0, contacts, client, organization, domain);
        NobodyBuried(book.value, contacts0, contacts, Addresses(low, tickets, ids), client);
      }
    }

    /**
     Moves the orphans of a domain, with their contacts, and answers how many they are and from
     how many different addresses they came; or breaks at an address whose contact is deleted.
     */
    method MoveOrphans(client: ClientId, organization: Id, domain: string)
      returns (done: bool, moved: nat, addresses: nat)
      requires ContactsUnique(contacts) && forall c | c in contacts :: c < nextContact
      modifies this`contacts, this`nextContact, this`tickets, this`messages
      ensures forall c | c in contacts :: c < nextContact
      ensures ContactsExtended(low, old(contacts), contacts, old(tickets), client, organization, domain)
      ensures !done <==> SomeBuried(old(contacts), client, OrphanAddresses(low, old(tickets), organization, domain))
      ensures !done ==> tickets == old(tickets) && messages == old(messages)
      ensures done ==> Adopted(low, old(tickets), tickets, contacts, client, organization, domain)
      ensures done ==> Credited(old(messages), messages, old(tickets), tickets, organization, domain)
      ensures done ==> moved == |Orphans(old(tickets), organization, domain)|
      ensures done ==> addresses == |OrphanAddresses(low, old(tickets), organization, domain)|
    {
      hide BookFits, ContactsExtended, OrphanAddresses, Orphans, Orphan, Adopted, Credited, AfterMove, AfterCredit;
      hide SomeBuried;
      ghost var tickets0, messages0, contacts0 := tickets, messages, contacts;
      var ids := OrphanIds(organization, domain);
      var book := OrphanBook(ids, client, organization, domain);
      if book.None? { return false, 0, 0; }
      Reassociate(ids, client, book.value);
      MovesAdopt(low, tickets0, tickets, ids, book.value, contacts0, contacts, client, organization, domain);
      MovesCredit(low, tickets0, tickets, messages0, messages, ids, client, book.value, organization, domain);
      return true, |ids|, |book.value.Keys|;
    }

    /**
     Besides the outcome, the number of tickets moved and the number of different
     addresses they came from; the latter is reported as the contacts created, but
     counts the contacts found as well.
     */
    method AssociateUnmappedDomain(unmappedId: Id, client: ClientId, organization: Id)
      returns (r: Outcome, moved: nat, addresses: nat)
      requires Inv(Current())
      modifies this
      ensures r == Answer(old(Current()), low, Op.Associate(unmappedId, client, organization))
      ensures Next(old(Current()), low, Op.Associate(unmappedId, client, organization), Current())
      ensures r == Done ==>
        var domain := NormalizeDomain(low, old(unmapped)[unmappedId].domain).value;
        && moved == |Orphans(old(tickets), organization, domain)|
        && addresses == |OrphanAddresses(low, old(tickets), organization, domain)|
    {
      hide Adopted, Credited, ContactsExtended, NormalizeDomain, OrphanAddresses, Orphans, SomeBuried, ContactsUnique;
      r := CheckAssociation(unmappedId, client, organization);
      if r != Done { return r, 0, 0; }
      var domain := NormalizeDomain(low, unmapped[unmappedId].domain).value;
      var existing := FindUnique(domain);
      var wasVerified := existing.Some? && rows[existing.value].verified;
      var done;
      done, moved, addresses := MoveOrphans(client, organization, domain);
      if !done { return Broken, 0, 0; }
      Upsert(DomainRow(domain, client, true, wasVerified));
      unmapped := unmapped[unmappedId := unmapped[unmappedId].(resolvedTo := Some(client))];
    }
  }

  /** A message once a ticket has been given to a client: an inbound one of it without an author gets the contact. */
  function WithAuthor(m: Message, isOfTicket: bool, contact: Option<nat>): Message {
    if isOfTicket && m.inbound && m.author.None? then m.(author := contact) else m
  }

  ghost predicate AfterCredit(now: Message, was: Message, ids: seq<Id>, tickets: map<Id, Ticket>,
                              client: ClientId, book: map<string, nat>, low: CaseMap) {
    now ==
      if was.ticket in ids && was.ticket in tickets
      then WithAuthor(was, true, Moved(tickets[was.ticket], client, book, low).contact)
      else was
  }

  lemma NothingCredited(m: Message, tickets: map<Id, Ticket>, client: ClientId, book: map<string, nat>, low: CaseMap)
    ensures AfterCredit(m, m, [], tickets, client, book, low)
  {
  }

  lemma CreditOneMore(mid: Message, was: Message, ids: seq<Id>, id: Id, tickets: map<Id, Ticket>,
                      client: ClientId, book: map<string, nat>, low: CaseMap)
    requires AfterCredit(mid, was, ids, tickets, client, book, low) && id in tickets
    ensures
      var contact := Moved(tickets[id], client, book, low).contact;
      AfterCredit(WithAuthor(mid, mid.ticket == id, contact), was, ids + [id], tickets, client, book, low)
  {
    hide Moved;
  }

  /** A domain is free as soon as the row found for it is inactive. */
  lemma OnlyRowDecides(t: Table, domain: string)
    requires OneRowEach(t) && (Find(t, domain).None? || !t.rows[Find(t, domain).value].active)
    ensures Free(t, domain)
  {
  }

  lemma MovesCredit(low: CaseMap, was: map<Id, Ticket>, now: map<Id, Ticket>,
                    before: map<Id, Message>, after: map<Id, Message>, ids: seq<Id>,
                    client: ClientId, book: map<string, nat>, organization: Id, domain: string)
    requires forall i :: i in ids <==> i in was && Orphan(was[i], organization, domain)
    requires now.Keys == was.Keys && forall i | i in was :: AfterMove(low, now, was, i, i in ids, client, book)
    requires after.Keys == before.Keys
    requires forall m | m in after :: AfterCredit(after[m], before[m], ids, was, client, book, low)
    ensures Credited(before, after, was, now, organization, domain)
  {
    hide Orphan, Moved;
    forall m | m in before && before[m].ticket in ids
      ensures now[before[m].ticket] == Moved(was[before[m].ticket], client, book, low)
    {
      assert AfterMove(low, now, was, before[m].ticket, true, client, book);
    }
    assert forall m | m in before :: AfterCredit(after[m], before[m], ids, was, client, book, low);
  }

  /** The book could be kept up to an address that only a deleted contact has. */
  ghost predicate StopsAt(k: nat, book: map<string, nat>, low: CaseMap, tickets: map<Id, Ticket>, ids: seq<Id>,
                          before: map<nat, Contact>, after: map<nat, Contact>, client: ClientId)
    requires forall i | i in ids :: i in tickets
  {
    && k < |ids|
    && BookFits(book, before, after, Addresses(low, tickets, ids[..k]), client)
    && SenderEmail(low, tickets[ids[k]]) != ""
    && Buried(before, client, SenderEmail(low, tickets[ids[k]]))
  }

  ghost predicate AfterMove(low: CaseMap, now: map<Id, Ticket>, was: map<Id, Ticket>, i: Id, moved: bool,
                            client: ClientId, book: map<string, nat>)
    requires i in now && i in was
  {
    now[i] == if moved then Moved(was[i], client, book, low) else was[i]
  }

  lemma MovesAdopt(low: CaseMap, was: map<Id, Ticket>, now: map<Id, Ticket>, ids: seq<Id>, book: map<string, nat>,
                   before: map<nat, Contact>, after: map<nat, Contact>,
                   client: ClientId, organization: Id, domain: string)
    requires forall i :: i in ids <==> i in was && Orphan(was[i], organization, domain)
    requires BookFits(book, before, after, Addresses(low, was, ids), client)
    requires now.Keys == was.Keys && forall i | i in was :: AfterMove(low, now, was, i, i in ids, client, book)
    ensures Adopted(low, was, now, after, client, organization, domain)
  {
    var emails := Addresses(low, was, ids);
    forall i | i in was && Orphan(was[i], organization, domain) && SenderEmail(low, was[i]) != ""
      ensures SenderEmail(low, was[i]) in book
    {
      var k :| 0 <= k < |ids| && ids[k] == i;
      assert emails[k] == SenderEmail(low, was[i]);
    }
    assert forall i | i in was :: AfterMove(low, now, was, i, i in ids, client, book);
  }

  lemma OrphanHasAddress(low: CaseMap, tickets: map<Id, Ticket>, i: Id, organization: Id, domain: string)
    requires i in tickets && Orphan(tickets[i], organization, domain) && SenderEmail(low, tickets[i]) != ""
    ensures SenderEmail(low, tickets[i]) in OrphanAddresses(low, tickets, organization, domain)
  {
    hide SenderEmail, Orphan;
  }

  lemma BookIsOfOrphans(low: CaseMap, tickets: map<Id, Ticket>, ids: seq<Id>, book: map<string, nat>,
                        before: map<nat, Contact>, after: map<nat, Contact>,
                        client: ClientId, organization: Id, domain: string)
    requires forall i :: i in ids <==> i in tickets && Orphan(tickets[i], organization, domain)
    requires BookFits(book, before, after, Addresses(low, tickets, ids), client)
    ensures book.Keys == OrphanAddresses(low, tickets, organization, domain)
  {
    hide Orphan, SenderEmail, IsContactFor;
    var emails := Addresses(low, tickets, ids);
    forall e ensures e in book <==> e in OrphanAddresses(low, tickets, organization, domain) {
      if e in book {
        var k :| 0 <= k < |emails| && emails[k] == e;
        assert ids[k] in ids;
      }
      if e in OrphanAddresses(low, tickets, organization, domain) {
        var i :| i in tickets && Orphan(tickets[i], organization, domain) && SenderEmail(low, tickets[i]) == e;
        var k :| 0 <= k < |ids| && ids[k] == i;
        assert emails[k] == e;
      }
    }
  }

  /** What a book of some of the orphans did to the contacts. */
  lemma BookExtends(low: CaseMap, tickets: map<Id, Ticket>, ids: seq<Id>, book: map<string, nat>,
                    before: map<nat, Contact>, after: map<nat, Contact>,
                    client: ClientId, organization: Id, domain: string)
    requires forall i | i in ids :: i in tickets && Orphan(tickets[i], organization, domain)
    requires BookFits(book, before, after, Addresses(low, tickets, ids), client)
    ensures ContactsExtended(low, before, after, tickets, client, organization, domain)
  {
    hide Orphan, SenderEmail, IsContactFor, HasRow;
    var emails := Addresses(low, tickets, ids);
    forall c | c in after && c !in before ensures IsNewContact(book, before, after[c], c, client)
      && exists i | i in tickets ::
           Orphan(tickets[i], organization, domain) && SenderEmail(low, tickets[i]) == after[c].email
    {
      var k :| 0 <= k < |emails| && emails[k] == after[c].email;
      assert ids[k] in ids;
    }
  }

  lemma BookKnowsBuried(book: map<string, nat>, before: map<nat, Contact>, mid: map<nat, Contact>,
                        emails: seq<string>, client: ClientId, email: string)
    requires BookFits(book, before, mid, emails, client)
    ensures Buried(mid, client, email) <==> Buried(before, client, email)
  {
    if Buried(mid, client, email) {
      var c :| c in mid && mid[c] == Contact(client, email, true);
    }
    if Buried(before, client, email) {
      var c :| c in before && before[c] == Contact(client, email, true);
      assert mid[c] == before[c];
    }
  }

  lemma NobodyBuried(book: map<string, nat>, before: map<nat, Contact>, after: map<nat, Contact>,
                     emails: seq<string>, client: ClientId)
    requires BookFits(book, before, after, emails, client) && ContactsUnique(after)
    ensures !SomeBuried(before, client, book.Keys)
  {
    forall e | e in book.Keys ensures !Buried(before, client, e) {
      assert IsContactFor(after, book[e], client, e);
      forall c | c in before ensures before[c] != Contact(client, e, true) {
        assert after[c] == before[c];
      }
    }
  }

  ghost function Addresses(low: CaseMap, tickets: map<Id, Ticket>, ids: seq<Id>): seq<string>
    requires forall i | i in ids :: i in tickets
  {
    seq(|ids|, k requires 0 <= k < |ids| => SenderEmail(low, tickets[ids[k]]))
  }

  /** The address book built from a list of addresses, and what it did to the contacts. */
  ghost predicate BookFits(book: map<string, nat>, before: map<nat, Contact>, after: map<nat, Contact>,
                           emails: seq<string>, client: ClientId) {
    && (forall e :: e in book <==> e in emails && e != "")
    && (forall e | e in book :: IsContactFor(after, book[e], client, e))
    && (forall c | c in before :: c in after && after[c] == before[c])
    && (forall c | c in after && c !in before :: IsNewContact(book, before, after[c], c, client))
  }

  ghost predicate IsNewContact(book: map<string, nat>, before: map<nat, Contact>, contact: Contact, c: nat,
                               client: ClientId) {
    && contact.client == client && !contact.deleted
    && contact.email in book && book[contact.email] == c
    && forall b | b in before :: !HasRow(before, b, client, contact.email)
  }

  lemma BookGrows(book: map<string, nat>, before: map<nat, Contact>, mid: map<nat, Contact>, after: map<nat, Contact>,
                  emails: seq<string>, client: ClientId, email: string, c: nat)
    requires BookFits(book, before, mid, emails, client) && email != "" && email !in book
    requires IsContactFor(after, c, client, email)
    requires
      || after == mid
      || (c !in mid && after == mid[c := Contact(client, email, false)]
          && forall b | b in mid :: !HasRow(mid, b, client, email))
    ensures BookFits(book[email := c], before, after, emails + [email], client)
  {
    forall d | d in after && d !in before ensures IsNewContact(book[email := c], before, after[d], d, client) {
      if d in mid {
        assert IsNewContact(book, before, mid[d], d, client);
      } else {
        forall b | b in before ensures !HasRow(before, b, client, email) {
          assert !HasRow(mid, b, client, email);
        }
      }
    }
  }

  lemma BookStays(book: map<string, nat>, before: map<nat, Contact>, after: map<nat, Contact>,
                  emails: seq<string>, client: ClientId, email: string)
    requires BookFits(book, before, after, emails, client) && (email == "" || email in book)
    ensures BookFits(book, before, after, emails + [email], client)
  {
  }

  /** A ticket given to a client, with the contact of its sender's address. */
  function Moved(t: Ticket, client: ClientId, book: map<string, nat>, low: CaseMap): Ticket {
    var email := SenderEmail(low, t);
    t.(client := Some(client), contact := if email in book then Some(book[email]) else None)
  }

  lemma MovedTwice(t: Ticket, client: ClientId, book: map<string, nat>, low: CaseMap)
    ensures Moved(Moved(t, client, book, low), client, book, low) == Moved(t, client, book, low)
  {
  }

  ghost function Orphans(tickets: map<Id, Ticket>, organization: Id, domain: string): set<Id> {
    set i | i in tickets && Orphan(tickets[i], organization, domain)
  }
}
