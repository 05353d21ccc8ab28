/**
 * The contact store of the phone book (src/lib.rs).
 *
 * The source keeps a `HashSet<Contact>` whose equality and hash look only at
 * the phone number, so the set holds at most one contact per number and
 * behaves as a map from phone number to contact. The model makes that map
 * explicit: a `Store` maps each number to the one contact filed under it.
 */
module Book {
  import opened Wrappers
  import Text

  type PhoneNumber = string

  datatype Address = Address(
    streetAddress: string,
    city: string,
    state: string,
    postcode: string,
    country: string)

  datatype Contact = Contact(
    firstName: string,
    lastName: string,
    phoneNumber: PhoneNumber,
    address: Option<Address>)

  datatype Error =
    | InvalidPhoneNumber    // the number is not 10 bytes long
    | DuplicateContact      // insert found the number already present
    | NotFound              // replace, delete or lookup found no such number
    | InvalidAddressFormat  // an address string is not five comma-separated parts
    | MissingSearchTerm     // a name search was given neither a first nor a last name

  type Store = map<PhoneNumber, Contact>

  /** Every contact is filed under its own phone number. */
  ghost predicate Keyed(s: Store)
  {
    forall p :: p in s ==> s[p].phoneNumber == p
  }

  /** Every stored phone number would pass validation. */
  ghost predicate PhonesValid(s: Store)
  {
    forall p :: p in s ==> IsValidPhoneNumber(p)
  }

  /** The contacts of a store, as the source's set sees them. */
  function Contacts(s: Store): set<Contact>
  {
    s.Values
  }

  /**
   * A phone number is accepted when its UTF-8 encoding is exactly 10 bytes
   * long; the digits themselves are not checked.
   */
  function IsValidPhoneNumber(number: PhoneNumber): (ok: bool)
    ensures ok ==> 3 <= |number| <= 10
    ensures Text.IsAscii(number) ==> (ok <==> |number| == 10)
  {
    Text.Utf8LenIsCharCountIffAscii(number);
    Text.Utf8Len(number) == 10
  }

  /** `insert_contact`: file a new contact under a number not yet in use. */
  function Insert(s: Store, c: Contact): (r: Result<Store, Error>)
    ensures r.Ok? <==> IsValidPhoneNumber(c.phoneNumber) && c.phoneNumber !in s
    ensures !IsValidPhoneNumber(c.phoneNumber) ==> r == Err(InvalidPhoneNumber)
    ensures IsValidPhoneNumber(c.phoneNumber) && c.phoneNumber in s ==> r == Err(DuplicateContact)
    ensures r.Ok? ==> r.value.Keys == s.Keys + {c.phoneNumber} && |r.value| == |s| + 1
    ensures r.Ok? ==> r.value[c.phoneNumber] == c
    ensures r.Ok? ==> forall p :: p in s ==> r.value[p] == s[p]
    ensures r.Ok? && Keyed(s) ==> Keyed(r.value)
    ensures r.Ok? && PhonesValid(s) ==> PhonesValid(r.value)
  {
    if !IsValidPhoneNumber(c.phoneNumber) then Err(InvalidPhoneNumber)
    else if c.phoneNumber in s then Err(DuplicateContact)
    else Ok(s[c.phoneNumber := c])
  }

  /**
   * `replace_contact` as intended: the stored record with the same number is
   * overwritten in every field, and nothing happens when there is none.
   */
  function Replace(s: Store, c: Contact): (r: Result<Store, Error>)
    ensures r.Ok? <==> IsValidPhoneNumber(c.phoneNumber) && c.phoneNumber in s
    ensures !IsValidPhoneNumber(c.phoneNumber) ==> r == Err(InvalidPhoneNumber)
    ensures IsValidPhoneNumber(c.phoneNumber) && c.phoneNumber !in s ==> r == Err(NotFound)
    ensures r.Ok? ==> r.value.Keys == s.Keys && |r.value| == |s|
    ensures r.Ok? ==> r.value[c.phoneNumber] == c
    ensures r.Ok? ==> forall p :: p in s && p != c.phoneNumber ==> r.value[p] == s[p]
    ensures r.Ok? && Keyed(s) ==> Keyed(r.value)
    ensures r.Ok? && PhonesValid(s) ==> PhonesValid(r.value)
  {
    if !IsValidPhoneNumber(c.phoneNumber) then Err(InvalidPhoneNumber)
    else if c.phoneNumber !in s then Err(NotFound)
    else Ok(s[c.phoneNumber := c])
  }

  /**
   * `replace_contact` as written. `HashSet::replace` stores its argument
   * whether or not an equal element was present and only reports which case
   * it met, so on an unknown number the contact is added although the call
   * reports failure.
   */
  function ReplaceAsWritten(s: Store, c: Contact): (r: (Outcome<Error>, Store))
    ensures !IsValidPhoneNumber(c.phoneNumber) ==> r == (Fail(InvalidPhoneNumber), s)
    ensures r.0 == Pass <==> IsValidPhoneNumber(c.phoneNumber) && c.phoneNumber in s
    ensures IsValidPhoneNumber(c.phoneNumber) && c.phoneNumber !in s ==> r.0 == Fail(NotFound)
    ensures IsValidPhoneNumber(c.phoneNumber) ==> r.1.Keys == s.Keys + {c.phoneNumber} && r.1[c.phoneNumber] == c
    ensures IsValidPhoneNumber(c.phoneNumber) ==> forall p :: p in s && p != c.phoneNumber ==> r.1[p] == s[p]
    ensures Keyed(s) ==> Keyed(r.1)
    ensures PhonesValid(s) ==> PhonesValid(r.1)
  {
    if !IsValidPhoneNumber(c.phoneNumber) then (Fail(InvalidPhoneNumber), s)
    else if c.phoneNumber in s then (Pass, s[c.phoneNumber := c])
    else (Fail(NotFound), s[c.phoneNumber := c])
  }

  /** `delete_contact`: remove the contact filed under `number`. */
  function Delete(s: Store, number: PhoneNumber): (r: Result<Store, Error>)
    ensures r.Ok? <==> IsValidPhoneNumber(number) && number in s
    ensures !IsValidPhoneNumber(number) ==> r == Err(InvalidPhoneNumber)
    ensures IsValidPhoneNumber(number) && number !in s ==> r == Err(NotFound)
    ensures r.Ok? ==> r.value.Keys == s.Keys - {number} && |r.value| == |s| - 1
    ensures r.Ok? ==> forall p :: p in r.value ==> r.value[p] == s[p]
    ensures r.Ok? && Keyed(s) ==> Keyed(r.value)
    ensures r.Ok? && PhonesValid(s) ==> PhonesValid(r.value)
  {
    if !IsValidPhoneNumber(number) then Err(InvalidPhoneNumber)
    else if number !in s then Err(NotFound)
    else Ok(s - {number})
  }

  /** `find_phone_number`: the stored contact whose number is `number`. */
  function FindPhoneNumber(s: Store, number: PhoneNumber): (r: Result<Contact, Error>)
    requires Keyed(s)
    ensures r.Ok? <==> IsValidPhoneNumber(number) && number in s
    ensures !IsValidPhoneNumber(number) ==> r == Err(InvalidPhoneNumber)
    ensures r.Ok? ==> r.value in Contacts(s) && r.value.phoneNumber == number
    ensures IsValidPhoneNumber(number) && r.Err? ==>
      r.error == NotFound && forall c :: c in Contacts(s) ==> c.phoneNumber != number
  {
    if !IsValidPhoneNumber(number) then Err(InvalidPhoneNumber)
    else if number in s then Ok(s[number])
    else Err(NotFound)
  }

  /**
   * The filter of `find_name`: the first name equals the given first name or
   * the last name equals the given last name, an absent name counting as "".
   */
  predicate NameMatches(c: Contact, first: Option<string>, last: Option<string>)
  {
    c.firstName == first.UnwrapOr("") || c.lastName == last.UnwrapOr("")
  }

  /** `find_name`: every stored contact that passes the name filter, in no particular order. */
  function FindName(s: Store, first: Option<string>, last: Option<string>): (r: set<Contact>)
    ensures r <= Contacts(s)
    ensures forall c :: c in r ==> c.firstName == first.UnwrapOr("") || c.lastName == last.UnwrapOr("")
    ensures forall c :: c in Contacts(s) && c.firstName == first.UnwrapOr("") ==> c in r
    ensures forall c :: c in Contacts(s) && c.lastName == last.UnwrapOr("") ==> c in r
  {
    set c | c in s.Values && NameMatches(c, first, last)
  }

  /** The filter of `find_city`: the contact has an address and it lies in `city`. */
  predicate InCity(c: Contact, city: string)
  {
    match c.address
    case Some(address) => address.city == city
    case None => false
  }

  /** `find_city`: every stored contact with an address in `city`, in no particular order. */
  function FindCity(s: Store, city: string): (r: set<Contact>)
    ensures r <= Contacts(s)
    ensures forall c :: c in r ==> c.address.Some? && c.address.value.city == city
    ensures forall c :: c in Contacts(s) && c.address == None ==> c !in r
    ensures forall c :: c in Contacts(s) && c.address.Some? && c.address.value.city == city ==> c in r
  {
    set c | c in s.Values && InCity(c, city)
  }

  /** How a store operation's result shows in the object: the new store, or the error with nothing changed. */
  ghost predicate Applied(result: Result<Store, Error>, before: Store, after: Store, r: Outcome<Error>)
  {
    match result
    case Ok(s) => r == Pass && after == s
    case Err(e) => r == Fail(e) && after == before
  }

  /** `PhoneBook`: the store and the operations that change it in place. */
  class PhoneBook {
    var contacts: Store

    ghost predicate Valid()
      reads this
    {
      Keyed(contacts)
    }

    /** `PhoneBook::new`: an empty phone book. */
    constructor ()
      ensures Valid() && contacts == map[]
    {
      contacts := map[];
    }

    method InsertContact(c: Contact) returns (r: Outcome<Error>)
      requires Valid()
      modifies this
      ensures Valid()
      ensures Applied(Insert(old(contacts), c), old(contacts), contacts, r)
    {
      if !IsValidPhoneNumber(c.phoneNumber) {
        return Fail(InvalidPhoneNumber);
      }
      if c.phoneNumber in contacts {
        return Fail(DuplicateContact);
      }
      contacts := contacts[c.phoneNumber := c];
      r := Pass;
    }

    method ReplaceContact(c: Contact) returns (r: Outcome<Error>)
      requires Valid()
      modifies this
      ensures Valid()
      ensures Applied(Replace(old(contacts), c), old(contacts), contacts, r)
    {
      if !IsValidPhoneNumber(c.phoneNumber) {
        return Fail(InvalidPhoneNumber);
      }
      if c.phoneNumber !in contacts {
        return Fail(NotFound);
      }
      contacts := contacts[c.phoneNumber := c];
      r := Pass;
    }

    method DeleteContact(number: PhoneNumber) returns (r: Outcome<Error>)
      requires Valid()
      modifies this
      ensures Valid()
      ensures Applied(Delete(old(contacts), number), old(contacts), contacts, r)
    {
      if !IsValidPhoneNumber(number) {
        return Fail(InvalidPhoneNumber);
      }
      if number !in contacts {
        return Fail(NotFound);
      }
      contacts := contacts - {number};
      r := Pass;
    }
  }
}
