/**
 * The logic of the command-line front end (src/main.rs) that goes beyond
 * argument parsing and printing: reading an address argument, merging the
 * fields given to `update` into the stored contact, and refusing a name
 * search without any name.
 */
module Cli {
  import opened Wrappers
  import opened Book
  import Text

  /** An address as `parse_address` produces it: no field holds a comma or starts or ends with white space. */
  predicate CleanField(f: string)
  {
    ',' !in f && Text.IsTrimmed(f)
  }

  predicate CleanAddress(a: Address)
  {
    CleanField(a.streetAddress) && CleanField(a.city) && CleanField(a.state)
    && CleanField(a.postcode) && CleanField(a.country)
  }

  /**
   * `parse_address`: "street, city, state, postcode, country". The text must
   * split on ',' into exactly five pieces; each field is its piece trimmed.
   */
  function ParseAddress(s: string): (r: Result<Address, Error>)
    ensures r.Ok? <==> Text.Count(s, ',') == 4
    ensures r.Err? ==> r.error == InvalidAddressFormat
    ensures r.Ok? ==> CleanAddress(r.value)
  {
    var parts := Text.Split(s, ',');
    if |parts| != 5 then Err(InvalidAddressFormat)
    else
      Ok(Address(
        Text.Trim(parts[0]),
        Text.Trim(parts[1]),
        Text.Trim(parts[2]),
        Text.Trim(parts[3]),
        Text.Trim(parts[4])))
  }

  /** Any five comma-free pieces joined by commas parse to their trimmed selves, in order. */
  lemma ParseAddressFields(p0: string, p1: string, p2: string, p3: string, p4: string)
    requires ',' !in p0 && ',' !in p1 && ',' !in p2 && ',' !in p3 && ',' !in p4
    ensures ParseAddress(Text.Join([p0, p1, p2, p3, p4], ',')) ==
      Ok(Address(Text.Trim(p0), Text.Trim(p1), Text.Trim(p2), Text.Trim(p3), Text.Trim(p4)))
  {
    var parts := [p0, p1, p2, p3, p4];
    Text.SplitJoin(parts, ',');
  }

  /** The address in the format documented on `parse_address`, fields separated by ", ". */
  function FormatAddress(a: Address): string
  {
    Text.Join([a.streetAddress, " " + a.city, " " + a.state, " " + a.postcode, " " + a.country], ',')
  }

  /** Parsing inverts formatting for every address that parsing can produce. */
  lemma ParseFormatAddress(a: Address)
    requires CleanAddress(a)
    ensures ParseAddress(FormatAddress(a)) == Ok(a)
  {
    PaddedCommaFree(a.city);
    PaddedCommaFree(a.state);
    PaddedCommaFree(a.postcode);
    PaddedCommaFree(a.country);
    ParseAddressFields(a.streetAddress, " " + a.city, " " + a.state, " " + a.postcode, " " + a.country);
    Text.TrimTrimmed(a.streetAddress);
    LeadingSpaceTrimmed(a.city);
    LeadingSpaceTrimmed(a.state);
    LeadingSpaceTrimmed(a.postcode);
    LeadingSpaceTrimmed(a.country);
  }

  /** A comma-free field stays comma-free behind the separating space. */
  lemma PaddedCommaFree(f: string)
    requires ',' !in f
    ensures ',' !in " " + f
  {
    assert forall i :: 0 <= i < |f| ==> (" " + f)[i + 1] == f[i];
  }

  /** The space after a comma is trimmed away again. */
  lemma LeadingSpaceTrimmed(f: string)
    requires Text.IsTrimmed(f)
    ensures Text.Trim(" " + f) == f
  {
    if f == [] {
      assert Text.TrimStart(" ") == Text.TrimStart([]);
    } else {
      assert " " + f + [] == " " + f;
      Text.TrimPadded(" ", f, []);
    }
  }

  /**
   * The `update` command's merge: the stored contact with each supplied field
   * written over it; the phone number is never touched.
   */
  function Merge(existing: Contact, first: Option<string>, last: Option<string>, address: Option<Address>): (c: Contact)
    ensures c.phoneNumber == existing.phoneNumber
    ensures first.None? && last.None? && address.None? ==> c == existing
  {
    Contact(
      first.UnwrapOr(existing.firstName),
      last.UnwrapOr(existing.lastName),
      existing.phoneNumber,
      if address.Some? then address else existing.address)
  }

  /** Each supplied field replaces the stored one; each absent field keeps the stored value. */
  lemma MergeOverwritesOnlySupplied(existing: Contact, first: Option<string>, last: Option<string>, address: Option<Address>)
    ensures var c := Merge(existing, first, last, address);
      && (first.Some? ==> c.firstName == first.value)
      && (first.None? ==> c.firstName == existing.firstName)
      && (last.Some? ==> c.lastName == last.value)
      && (last.None? ==> c.lastName == existing.lastName)
      && (address.Some? ==> c.address == address)
      && (address.None? ==> c.address == existing.address)
  {
  }

  /**
   * The `update` command on the store: look the number up, merge, replace.
   * It succeeds exactly when the lookup does; the replacement cannot fail then.
   */
  function Update(s: Store, phone: PhoneNumber, first: Option<string>, last: Option<string>, address: Option<Address>)
    : (r: Result<Store, Error>)
    requires Keyed(s)
    ensures r.Ok? <==> IsValidPhoneNumber(phone) && phone in s
    ensures r.Err? ==> r == Err(FindPhoneNumber(s, phone).error)
    ensures r.Ok? ==> r.value == s[phone := Merge(s[phone], first, last, address)]
    ensures r.Ok? ==> Keyed(r.value)
  {
    match FindPhoneNumber(s, phone)
    case Err(e) => Err(e)
    case Ok(existing) => Replace(s, Merge(existing, first, last, address))
  }

  /** An update that supplies no field leaves the store exactly as it was. */
  lemma UpdateNothing(s: Store, phone: PhoneNumber)
    requires Keyed(s) && IsValidPhoneNumber(phone) && phone in s
    ensures Update(s, phone, None, None, None) == Ok(s)
  {
    assert s[phone := s[phone]] == s;
  }

  /** The written `replace_contact` behaves as the corrected one on the update path. */
  lemma UpdateAvoidsReplaceDefect(s: Store, phone: PhoneNumber, first: Option<string>, last: Option<string>, address: Option<Address>)
    requires Keyed(s) && FindPhoneNumber(s, phone).Ok?
    ensures ReplaceAsWritten(s, Merge(s[phone], first, last, address)) == (Pass, Update(s, phone, first, last, address).value)
  {
  }

  /** The `Update` branch: copy the stored contact, overwrite the supplied fields one by one, replace. */
  method UpdateCommand(book: PhoneBook, phone: PhoneNumber, first: Option<string>, last: Option<string>, address: Option<Address>)
    returns (r: Outcome<Error>)
    requires book.Valid()
    modifies book
    ensures book.Valid()
    ensures Applied(Update(old(book.contacts), phone, first, last, address), old(book.contacts), book.contacts, r)
  {
    var found := FindPhoneNumber(book.contacts, phone);
    if found.Err? {
      return Fail(found.error);
    }
    var existing := found.value;
    match first {
      case Some(name) => existing := existing.(firstName := name);
      case None =>
    }
    match last {
      case Some(name) => existing := existing.(lastName := name);
      case None =>
    }
    match address {
      case Some(a) => existing := existing.(address := Some(a));
      case None =>
    }
    assert existing == Merge(found.value, first, last, address);
    r := book.ReplaceContact(existing);
  }

  /**
   * `search name`: at least one of the two names must be given; the store is
   * not consulted otherwise.
   */
  function SearchByName(s: Store, first: Option<string>, last: Option<string>): (r: Result<set<Contact>, Error>)
    ensures r.Err? <==> first.None? && last.None?
    ensures first.None? && last.None? ==> r == Err(MissingSearchTerm)
    ensures r.Ok? ==> r.value == FindName(s, first, last)
  {
    if first.None? && last.None? then Err(MissingSearchTerm)
    else Ok(FindName(s, first, last))
  }

  /** Without the guard, a search with no names would list every contact that has an empty name. */
  lemma UnguardedEmptySearch(s: Store, c: Contact)
    requires c in Contacts(s)
    ensures c in FindName(s, None, None) <==> c.firstName == "" || c.lastName == ""
  {
  }
}
