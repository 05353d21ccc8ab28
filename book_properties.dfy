/** Properties that relate several store operations to one another. */
module BookProperties {
  import opened Wrappers
  import opened Book
  import Text

  /** Two stored contacts with the same phone number are the same contact: the set has one record per number. */
  lemma OneContactPerNumber(s: Store, a: Contact, b: Contact)
    requires Keyed(s)
    requires a in Contacts(s) && b in Contacts(s) && a.phoneNumber == b.phoneNumber
    ensures a == b
  {
    var pa :| pa in s && s[pa] == a;
    var pb :| pb in s && s[pb] == b;
  }

  /** A contact just inserted is what a lookup of its number returns. */
  lemma InsertThenFind(s: Store, c: Contact)
    requires Keyed(s) && Insert(s, c).Ok?
    ensures FindPhoneNumber(Insert(s, c).value, c.phoneNumber) == Ok(c)
  {
  }

  /** Deleting a contact just inserted gives back the store as it was. */
  lemma InsertThenDelete(s: Store, c: Contact)
    requires Insert(s, c).Ok?
    ensures Delete(Insert(s, c).value, c.phoneNumber) == Ok(s)
  {
    var t := Insert(s, c).value;
    assert t - {c.phoneNumber} == s;
  }

  /** A second insert under a number in use fails and the first record stays as it was. */
  lemma DuplicateInsertKeepsRecord(s: Store, first: Contact, second: Contact)
    requires Keyed(s) && Insert(s, first).Ok? && second.phoneNumber == first.phoneNumber
    ensures Insert(Insert(s, first).value, second) == Err(DuplicateContact)
    ensures FindPhoneNumber(Insert(s, first).value, first.phoneNumber) == Ok(first)
  {
  }

  /** Replacement overwrites the whole record: a lookup returns the new contact in every field. */
  lemma ReplaceThenFind(s: Store, c: Contact)
    requires Keyed(s) && Replace(s, c).Ok?
    ensures FindPhoneNumber(Replace(s, c).value, c.phoneNumber) == Ok(c)
  {
  }

  /** Putting the previous record back undoes a replacement. */
  lemma ReplaceUndone(s: Store, c: Contact)
    requires Keyed(s) && Replace(s, c).Ok?
    ensures Replace(Replace(s, c).value, s[c.phoneNumber]) == Ok(s)
  {
    var t := Replace(s, c).value;
    assert t[c.phoneNumber := s[c.phoneNumber]] == s;
  }

  /** After a delete the number is no longer found, and the other contacts still are. */
  lemma DeleteThenFind(s: Store, number: PhoneNumber, other: PhoneNumber)
    requires Keyed(s) && Delete(s, number).Ok?
    requires other != number
    ensures FindPhoneNumber(Delete(s, number).value, number) == Err(NotFound)
    ensures FindPhoneNumber(Delete(s, number).value, other) == FindPhoneNumber(s, other)
  {
  }

  /** An empty phone book finds nothing and cannot delete or replace anything. */
  lemma EmptyBook(number: PhoneNumber, c: Contact, first: Option<string>, last: Option<string>, city: string)
    requires IsValidPhoneNumber(number) && IsValidPhoneNumber(c.phoneNumber)
    ensures FindPhoneNumber(map[], number) == Err(NotFound)
    ensures Delete(map[], number) == Err(NotFound)
    ensures Replace(map[], c) == Err(NotFound)
    ensures FindName(map[], first, last) == {} && FindCity(map[], city) == {}
  {
  }

  /** The contacts of a store after an insert are the old ones and the new one. */
  lemma InsertAddsContact(s: Store, c: Contact)
    requires Insert(s, c).Ok?
    ensures Contacts(Insert(s, c).value) == Contacts(s) + {c}
  {
    var t := Insert(s, c).value;
    forall x | x in Contacts(t) ensures x in Contacts(s) + {c} {
      var p :| p in t && t[p] == x;
      if p != c.phoneNumber { assert p in s && s[p] == x; }
    }
    forall x | x in Contacts(s) ensures x in Contacts(t) {
      var p :| p in s && s[p] == x;
      assert t[p] == x;
    }
  }

  /** A name search after an insert finds what it found before, plus the new contact if it matches. */
  lemma FindNameAfterInsert(s: Store, c: Contact, first: Option<string>, last: Option<string>)
    requires Insert(s, c).Ok?
    ensures FindName(Insert(s, c).value, first, last) ==
      FindName(s, first, last) + (if NameMatches(c, first, last) then {c} else {})
  {
    InsertAddsContact(s, c);
  }

  /** A city search after an insert finds what it found before, plus the new contact if it lives there. */
  lemma FindCityAfterInsert(s: Store, c: Contact, city: string)
    requires Insert(s, c).Ok?
    ensures FindCity(Insert(s, c).value, city) ==
      FindCity(s, city) + (if InCity(c, city) then {c} else {})
  {
    InsertAddsContact(s, c);
  }

  /** The contacts of a store after a delete are the old ones except the deleted one. */
  lemma DeleteRemovesContact(s: Store, number: PhoneNumber)
    requires Keyed(s) && Delete(s, number).Ok?
    ensures Contacts(Delete(s, number).value) == Contacts(s) - {s[number]}
  {
    var t := Delete(s, number).value;
    forall x | x in Contacts(s) - {s[number]} ensures x in Contacts(t) {
      var p :| p in s && s[p] == x;
      assert p != number;
      assert t[p] == x;
    }
    forall x | x in Contacts(t) ensures x in Contacts(s) - {s[number]} {
      var p :| p in t && t[p] == x;
      assert s[p] == x;
      assert x.phoneNumber == p;
    }
  }

  /** A deleted contact no longer turns up in any name or city search. */
  lemma DeletedContactNotSearched(s: Store, number: PhoneNumber, first: Option<string>, last: Option<string>, city: string)
    requires Keyed(s) && Delete(s, number).Ok?
    ensures s[number] !in FindName(Delete(s, number).value, first, last)
    ensures s[number] !in FindCity(Delete(s, number).value, city)
  {
    DeleteRemovesContact(s, number);
  }

  /**
   * The OR filter with an absent last name matches every contact whose last
   * name is empty, whatever first name was asked for.
   */
  lemma EmptyLastNameAlwaysMatches(s: Store, c: Contact, first: string)
    requires c in Contacts(s) && c.lastName == ""
    ensures c in FindName(s, Some(first), None)
  {
  }

  /**
   * A store operation as one step of a session. `Change` is the corrected
   * replacement, after which a failed step changes nothing; `ChangeAsWritten`
   * is `replace_contact` as the source runs it, whose store is kept whatever
   * the call reports.
   */
  datatype Command =
    | Add(contact: Contact)
    | Change(contact: Contact)
    | ChangeAsWritten(contact: Contact)
    | Remove(number: PhoneNumber)

  function Step(s: Store, cmd: Command): Store
  {
    match cmd
    case ChangeAsWritten(c) => ReplaceAsWritten(s, c).1
    case _ =>
      var r := match cmd
        case Add(c) => Insert(s, c)
        case Change(c) => Replace(s, c)
        case Remove(n) => Delete(s, n)
        case ChangeAsWritten(c) => Replace(s, c);
      if r.Ok? then r.value else s
  }

  function Run(s: Store, cmds: seq<Command>): Store
    decreases |cmds|
  {
    if cmds == [] then s else Run(Step(s, cmds[0]), cmds[1..])
  }

  /**
   * Whatever sequence of inserts, replacements (corrected or as written) and
   * deletes is applied, no two contacts share a number and every stored
   * number is 10 bytes long.
   */
  lemma {:induction false} RunKeepsInvariant(s: Store, cmds: seq<Command>)
    requires Keyed(s) && PhonesValid(s)
    ensures Keyed(Run(s, cmds)) && PhonesValid(Run(s, cmds))
    decreases |cmds|
  {
    if cmds != [] {
      RunKeepsInvariant(Step(s, cmds[0]), cmds[1..]);
    }
  }

  /** A session that starts from a new phone book never stores a number that fails validation. */
  lemma {:induction false} RunFromEmpty(cmds: seq<Command>)
    ensures Keyed(Run(map[], cmds)) && PhonesValid(Run(map[], cmds))
    ensures forall c :: c in Contacts(Run(map[], cmds)) ==> IsValidPhoneNumber(c.phoneNumber)
  {
    RunKeepsInvariant(map[], cmds);
    var s := Run(map[], cmds);
    forall c | c in Contacts(s) ensures IsValidPhoneNumber(c.phoneNumber) {
      var p :| p in s && s[p] == c;
    }
  }

  /**
   * `replace_contact` as written reports failure on an unknown number yet
   * leaves the contact in the store.
   */
  lemma ReplaceAsWrittenKeepsContactOnFailure()
    ensures var c := Contact("Jane", "Doe", "5551234567", None);
      ReplaceAsWritten(map[], c) == (Fail(NotFound), map["5551234567" := c])
  {
    var c := Contact("Jane", "Doe", "5551234567", None);
    assert IsValidPhoneNumber(c.phoneNumber);
  }

  /** The defect adds a contact but never breaks one record per number or admits an invalid number. */
  lemma ReplaceAsWrittenSession(c: Contact)
    ensures var s := Run(map[], [ChangeAsWritten(c)]);
      && Keyed(s) && PhonesValid(s)
      && (IsValidPhoneNumber(c.phoneNumber) <==> s == map[c.phoneNumber := c])
  {
    RunFromEmpty([ChangeAsWritten(c)]);
    var s := Run(map[], [ChangeAsWritten(c)]);
    assert s == ReplaceAsWritten(map[], c).1;
    if IsValidPhoneNumber(c.phoneNumber) {
      assert s == map[c.phoneNumber := c];
    } else {
      assert s == map[];
    }
  }

  /** Where the number is known the written and the corrected replacement agree. */
  lemma ReplaceAsWrittenAgreesWhenFound(s: Store, c: Contact)
    requires Replace(s, c).Ok?
    ensures ReplaceAsWritten(s, c) == (Pass, Replace(s, c).value)
  {
  }

  /** Name search with OR semantics: a first name alone, then a shared last name. */
  lemma NameSearchScenario()
    ensures var ann := Contact("Ann", "Lee", "1112223333", None);
      var bob := Contact("Bob", "Lee", "4445556666", None);
      var s := map["1112223333" := ann, "4445556666" := bob];
      FindName(s, Some("Ann"), None) == {ann} && FindName(s, None, Some("Lee")) == {ann, bob}
  {
    var ann := Contact("Ann", "Lee", "1112223333", None);
    var bob := Contact("Bob", "Lee", "4445556666", None);
    var s := map["1112223333" := ann, "4445556666" := bob];
    assert s["1112223333"] == ann && s["4445556666"] == bob;
    forall x | x in Contacts(s) ensures x == ann || x == bob {
      var p :| p in s && s[p] == x;
    }
    assert Contacts(s) == {ann, bob};
    assert !NameMatches(bob, Some("Ann"), None);
  }

  /** Insert, duplicate insert, then whole-record replace under one number. */
  lemma InsertReplaceScenario()
    ensures var jane := Contact("Jane", "Doe", "5551234567", None);
      var other := Contact("Joan", "Roe", "5551234567", None);
      var janet := Contact("Janet", "Doe", "5551234567", None);
      && Insert(map[], jane).Ok?
      && Insert(Insert(map[], jane).value, other) == Err(DuplicateContact)
      && Replace(Insert(map[], jane).value, janet).Ok?
      && FindPhoneNumber(Replace(Insert(map[], jane).value, janet).value, "5551234567").Ok?
      && FindPhoneNumber(Replace(Insert(map[], jane).value, janet).value, "5551234567").value.firstName == "Janet"
  {
    assert IsValidPhoneNumber("5551234567");
  }

  /** Length is counted in bytes: ten characters, one of them two bytes wide, are rejected. */
  lemma PhoneLengthCountsBytes()
    ensures !IsValidPhoneNumber("555123456é")
    ensures IsValidPhoneNumber("abcdefghij")
  {
    assert Text.Utf8Len("555123456é") == 11;
  }
}
