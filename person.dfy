/** A person record: four name parts and an address, each with a getter
    and a setter, and the full name built from the parts.

    A part is PHP `NULL` or a string; the address is an object handle. */
module People {
  import opened Common

  /** `$part ? $part . ' ' : NULL`: a truthy part followed by one space,
      else nothing. */
  function Word(part: Option<string>): string
  {
    if TruthyOpt(part) then part.value + " " else ""
  }

  /** A missing last name concatenates as the empty string. */
  function Text(part: Option<string>): string
  {
    if part.Some? then part.value else ""
  }

  /** `getFullname()` over the four parts. */
  function Fullname(salutation: Option<string>, firstname: Option<string>, secondname: Option<string>,
                    lastname: Option<string>): (r: string)
    ensures |r| == |Word(salutation)| + |Word(firstname)| + |Word(secondname)| + |Text(lastname)|
  {
    Word(salutation) + Word(firstname) + Word(secondname) + Text(lastname)
  }

  /** The last name always ends the full name, with no space after it. */
  lemma LastnameEnds(salutation: Option<string>, firstname: Option<string>, secondname: Option<string>, lastname: Option<string>)
    ensures var r := Fullname(salutation, firstname, secondname, lastname);
      |Text(lastname)| <= |r| && r[|r| - |Text(lastname)|..] == Text(lastname)
  {
  }

  /** A falsy part (`NULL`, "", "0") contributes nothing, not even its
      space: the full name is as if the part were `NULL`. */
  lemma FalsyPartsVanish(salutation: Option<string>, firstname: Option<string>, secondname: Option<string>, lastname: Option<string>)
    ensures !TruthyOpt(salutation) ==> Fullname(salutation, firstname, secondname, lastname) == Fullname(None, firstname, secondname, lastname)
    ensures !TruthyOpt(firstname) ==> Fullname(salutation, firstname, secondname, lastname) == Fullname(salutation, None, secondname, lastname)
    ensures !TruthyOpt(secondname) ==> Fullname(salutation, firstname, secondname, lastname) == Fullname(salutation, firstname, None, lastname)
  {
  }

  /** With only a last name, the full name is the last name. */
  lemma OnlyLastname(salutation: Option<string>, firstname: Option<string>, secondname: Option<string>, lastname: Option<string>)
    requires !TruthyOpt(salutation) && !TruthyOpt(firstname) && !TruthyOpt(secondname)
    ensures Fullname(salutation, firstname, secondname, lastname) == Text(lastname)
  {
    assert "" + "" + "" + Text(lastname) == Text(lastname);
  }

  /** A truthy part appears in the full name followed by one space, after
      the truthy parts before it. */
  lemma TruthyPartsInOrder(salutation: Option<string>, firstname: Option<string>, secondname: Option<string>, lastname: Option<string>)
    ensures var r := Fullname(salutation, firstname, secondname, lastname);
      TruthyOpt(salutation) ==> r[..|salutation.value| + 1] == salutation.value + " "
    ensures var r := Fullname(salutation, firstname, secondname, lastname); var k := |Word(salutation)|;
      TruthyOpt(firstname) ==> r[k..k + |firstname.value| + 1] == firstname.value + " "
    ensures var r := Fullname(salutation, firstname, secondname, lastname); var k := |Word(salutation)| + |Word(firstname)|;
      TruthyOpt(secondname) ==> r[k..k + |secondname.value| + 1] == secondname.value + " "
  {
    var a, b, c, d := Word(salutation), Word(firstname), Word(secondname), Text(lastname);
    var r := a + b + c + d;
    assert r[..|a|] == a;
    assert r[|a|..|a| + |b|] == b;
    assert r[|a| + |b|..|a| + |b| + |c|] == c;
  }

  class Person {
    var salutation: Option<string>
    var firstname: Option<string>
    var secondname: Option<string>
    var lastname: Option<string>
    var address: Option<nat>

    /** A person with every field `NULL`. */
    constructor ()
      ensures salutation == None && firstname == None && secondname == None && lastname == None && address == None
    {
      salutation, firstname, secondname, lastname, address := None, None, None, None, None;
    }

    function GetSalutation(): Option<string>
      reads this
    {
      salutation
    }

    /** `setSalutation($salutation)`: only the salutation changes. */
    method SetSalutation(v: Option<string>)
      modifies this`salutation
      ensures GetSalutation() == v
    {
      salutation := v;
    }

    function GetFirstname(): Option<string>
      reads this
    {
      firstname
    }

    /** `setFirstname($firstname)`: only the first name changes. */
    method SetFirstname(v: Option<string>)
      modifies this`firstname
      ensures GetFirstname() == v
    {
      firstname := v;
    }

    function GetSecondname(): Option<string>
      reads this
    {
      secondname
    }

    /** `setSecondname($secondname)`: only the second name changes. */
    method SetSecondname(v: Option<string>)
      modifies this`secondname
      ensures GetSecondname() == v
    {
      secondname := v;
    }

    function GetLastname(): Option<string>
      reads this
    {
      lastname
    }

    /** `setLastname($lastname)`: only the last name changes. */
    method SetLastname(v: Option<string>)
      modifies this`lastname
      ensures GetLastname() == v
    {
      lastname := v;
    }

    function GetAddress(): Option<nat>
      reads this
    {
      address
    }

    /** `setAddress($address)`: only the address changes. */
    method SetAddress(a: nat)
      modifies this`address
      ensures GetAddress() == Some(a)
    {
      address := Some(a);
    }

    /** `getFullname()`. */
    function GetFullname(): (r: string)
      reads this
      ensures r == Fullname(salutation, firstname, secondname, lastname)
    {
      Word(salutation) + Word(firstname) + Word(secondname) + Text(lastname)
    }
  }

  /** Setting the last name of a fresh person gives that full name; a
      salutation "0" set afterwards changes nothing. */
  method FullnameOfLastnameOnly(last: string) returns (before: string, after: string)
    ensures before == last && after == last
  {
    var p := new Person();
    p.SetLastname(Some(last));
    before := p.GetFullname();
    OnlyLastname(p.salutation, p.firstname, p.secondname, p.lastname);
    p.SetSalutation(Some("0"));
    after := p.GetFullname();
    OnlyLastname(p.salutation, p.firstname, p.secondname, p.lastname);
  }
}
