/**
 * One contact (hw12.py:41-65): a name field, a list of phone fields in
 * insertion order with duplicates allowed, and an optional birthday field.
 * Phones are matched by their string form, which for a phone is its value.
 */
module Records {
  import opened Wrappers
  import opened Fields
  import opened Lists

  /** The string form of each field, in list order. */
  function Values(ps: seq<Field>): (r: seq<string>)
    reads set p | p in ps
    ensures |r| == |ps| && forall i :: 0 <= i < |ps| ==> r[i] == ps[i].value
  {
    if ps == [] then [] else [ps[0].value] + Values(ps[1..])
  }

  /** Appending a field appends its string. */
  lemma ValuesAppend(ps: seq<Field>, p: Field)
    ensures Values(ps + [p]) == Values(ps) + [p.value]
  {
  }

  /**
   * The phone fields whose string form is not `s` (the comprehension of
   * line 51): each such object stays as often as it was there, each other
   * one goes, and the survivors keep their original order.
   */
  function Without(ps: seq<Field>, s: string): (r: seq<Field>)
    reads set p | p in ps
    ensures Values(r) == Removed(Values(ps), s)
    ensures forall p :: p in r ==> p in ps
    ensures forall p :: p in ps ==> multiset(r)[p] == if p.value == s then 0 else multiset(ps)[p]
    ensures IsSubsequence(r, ps)
  {
    if ps == [] then []
    else
      var rest := Without(ps[1..], s);
      var r := if ps[0].value == s then rest else [ps[0]] + rest;
      WithoutStepValues(ps, s, rest, r);
      WithoutStepObjects(ps, s, rest, r);
      r
  }

  /** One step of Without, for the strings: dropping or keeping the head on top of the tail's result. */
  lemma WithoutStepValues(ps: seq<Field>, s: string, rest: seq<Field>, r: seq<Field>)
    requires ps != []
    requires Values(rest) == Removed(Values(ps[1..]), s)
    requires r == if ps[0].value == s then rest else [ps[0]] + rest
    ensures Values(r) == Removed(Values(ps), s)
  {
    assert Values(ps)[1..] == Values(ps[1..]);
    if ps[0].value != s {
      assert Values(r) == [ps[0].value] + Values(rest);
    }
  }

  /** One step of Without, for the objects: multiplicities and order. */
  lemma WithoutStepObjects(ps: seq<Field>, s: string, rest: seq<Field>, r: seq<Field>)
    requires ps != []
    requires forall p :: p in rest ==> p in ps[1..]
    requires forall p :: p in ps[1..] ==> multiset(rest)[p] == if p.value == s then 0 else multiset(ps[1..])[p]
    requires IsSubsequence(rest, ps[1..])
    requires r == if ps[0].value == s then rest else [ps[0]] + rest
    ensures forall p :: p in r ==> p in ps
    ensures forall p :: p in ps ==> multiset(r)[p] == if p.value == s then 0 else multiset(ps)[p]
    ensures IsSubsequence(r, ps)
  {
    assert ps == [ps[0]] + ps[1..];
    if ps[0].value == s {
      SubsequenceOfTail(rest, ps);
    } else {
      assert r[1..] == rest;
    }
    forall p | p in ps
      ensures multiset(r)[p] == if p.value == s then 0 else multiset(ps)[p]
    {
      if p !in ps[1..] {
        assert multiset(ps[1..])[p] == 0;
        assert multiset(rest)[p] == 0;
      }
    }
  }

  /** Filtering the phones a second time with the same string removes nothing more. */
  lemma {:induction false} WithoutIdempotent(ps: seq<Field>, s: string)
    ensures Without(Without(ps, s), s) == Without(ps, s)
  {
    if ps != [] {
      WithoutIdempotent(ps[1..], s);
      if ps[0].value != s {
        var r := Without(ps, s);
        assert r == [ps[0]] + Without(ps[1..], s);
        assert r[1..] == Without(ps[1..], s);
      }
    }
  }

  /** A birthday argument that `__init__` treats as given: not None and not empty. */
  predicate Given(birthday: Option<string>) {
    birthday.Some? && birthday.value != ""
  }

  class Record {
    const name: Field
    var phones: seq<Field>
    const birthday: Field?

    /** Each field is of its kind and holds a value that kind accepts. */
    ghost predicate Valid()
      reads this, name, birthday, set p | p in phones
    {
      && name.kind == NameKind
      && (birthday != null ==> birthday.kind == BirthdayKind && birthday.Valid())
      && forall p :: p in phones ==> p.kind == PhoneKind && p.Valid()
    }

    /** The string forms of the phones, in list order. */
    function Numbers(): (r: seq<string>)
      reads this, set p | p in phones
    {
      Values(phones)
    }

    /** `__init__` when the birthday, if given, is accepted. */
    constructor (name: string, birthday: Option<string>)
      requires Given(birthday) ==> Validate(BirthdayKind, birthday.value) == Pass
      ensures Valid() && fresh(this.name) && this.name.value == name && phones == []
      ensures Given(birthday) ==> fresh(this.birthday) && this.birthday != null && this.birthday.value == birthday.value
      ensures !Given(birthday) ==> this.birthday == null
    {
      this.name := new Field(NameKind, name);
      phones := [];
      if Given(birthday) {
        this.birthday := new Field(BirthdayKind, birthday.value);
      } else {
        this.birthday := null;
      }
    }

    /**
     * `add_phone`: the phone field is built before the append, so a
     * rejected phone leaves the list as it was; an accepted one lands at
     * the end, after all the earlier entries.
     */
    method AddPhone(phone: string) returns (o: Outcome<Error>)
      requires Valid()
      modifies this
      ensures Valid()
      ensures o == Validate(PhoneKind, phone)
      ensures o == Pass ==> |phones| == |old(phones)| + 1 && phones[..|old(phones)|] == old(phones)
      ensures o == Pass ==> fresh(phones[|old(phones)|]) && Numbers() == old(Numbers()) + [phone]
      ensures o != Pass ==> phones == old(phones)
    {
      var r := NewField(PhoneKind, phone);
      match r
      case Failure(e) =>
        o := Fail(e);
      case Success(p) =>
        ValuesAppend(phones, p);
        phones := phones + [p];
        o := Pass;
    }

    /**
     * `remove_phone`: every phone whose string is `phone` goes, the others
     * stay in order; nothing is raised when none matches.
     */
    method RemovePhone(phone: string)
      requires Valid()
      modifies this
      ensures Valid()
      ensures phones == old(Without(phones, phone))
      ensures Numbers() == Removed(old(Numbers()), phone)
    {
      phones := Without(phones, phone);
    }

    /**
     * `edit_phone`: the first phone whose string is `oldPhone` is replaced,
     * in place, by a fresh phone holding `newPhone`. No match raises
     * PhoneNotFound; a match with an invalid `newPhone` raises
     * InvalidPhoneFormat; either way the list is left as it was.
     */
    method EditPhone(oldPhone: string, newPhone: string) returns (o: Outcome<Error>)
      requires Valid()
      modifies this
      ensures Valid()
      ensures o == if oldPhone in old(Numbers()) then Validate(PhoneKind, newPhone) else Fail(PhoneNotFound)
      ensures o == Pass ==>
        var k := FirstIndex(old(Numbers()), oldPhone).value;
        && |phones| == |old(phones)|
        && fresh(phones[k])
        && (forall j :: 0 <= j < |phones| && j != k ==> phones[j] == old(phones)[j])
        && Numbers() == old(Numbers())[k := newPhone]
      ensures o != Pass ==> phones == old(phones)
    {
      ghost var before := Numbers();
      var i := 0;
      while i < |phones|
        invariant 0 <= i <= |phones|
        invariant forall j :: 0 <= j < i ==> before[j] != oldPhone
      {
        if phones[i].value == oldPhone {
          assert FirstIndex(before, oldPhone) == Some(i);
          var r := NewField(PhoneKind, newPhone);
          match r
          case Failure(e) =>
            return Fail(e);
          case Success(p) =>
            ghost var ps := phones;
            phones := phones[i := p];
            assert Values(phones) == before[i := newPhone] by {
              assert forall j :: 0 <= j < |phones| && j != i ==> phones[j] == ps[j];
            }
            return Pass;
        }
        i := i + 1;
      }
      assert oldPhone !in before;
      return Fail(PhoneNotFound);
    }

    /** `find_phone`: the phone at the smallest index whose string is `phone`, or null when none is. */
    method FindPhone(phone: string) returns (r: Field?)
      ensures r == null <==> phone !in Numbers()
      ensures r != null ==> r == phones[FirstIndex(Numbers(), phone).value]
    {
      var i := 0;
      while i < |phones|
        invariant 0 <= i <= |phones|
        invariant forall j :: 0 <= j < i ==> phones[j].value != phone
      {
        if phones[i].value == phone {
          assert FirstIndex(Numbers(), phone) == Some(i);
          return phones[i];
        }
        i := i + 1;
      }
      return null;
    }
  }

  /** `Record(name, birthday)`: a fresh record, or InvalidDateFormat when a given birthday is refused. */
  method NewRecord(name: string, birthday: Option<string>) returns (r: Result<Record, Error>)
    ensures r.Success? <==> !Given(birthday) || Validate(BirthdayKind, birthday.value) == Pass
    ensures r.Failure? ==> r.error == InvalidDateFormat
    ensures r.Success? ==> fresh(r.value) && r.value.Valid() && r.value.name.value == name && r.value.phones == []
    ensures r.Success? ==> (r.value.birthday != null <==> Given(birthday))
    ensures r.Success? && Given(birthday) ==> r.value.birthday != null && r.value.birthday.value == birthday.value
  {
    if Given(birthday) && Validate(BirthdayKind, birthday.value) != Pass {
      return Failure(InvalidDateFormat);
    }
    var rec := new Record(name, birthday);
    return Success(rec);
  }
}
