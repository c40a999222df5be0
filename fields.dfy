/**
 * Validated fields: `Field` and its three kinds `Name`, `Phone` and
 * `Birthday` (hw12.py:6-39). A field's value is assigned only through the
 * property setter, which runs the kind's `validate` first.
 */
module Fields {
  import opened Wrappers
  import Dates

  /** The three `ValueError`s of the contact book, told apart by their message. */
  datatype Error = InvalidPhoneFormat | InvalidDateFormat | PhoneNotFound

  /** Which subclass of `Field` an object belongs to. */
  datatype Kind = NameKind | PhoneKind | BirthdayKind

  /** `str.isdigit()` restricted to ASCII: non-empty, and every character a decimal digit. */
  predicate IsDigitString(s: string) {
    |s| > 0 && Dates.AllDigits(s)
  }

  /** What `Phone.validate` lets through. */
  predicate IsPhone(s: string) {
    IsDigitString(s) && |s| == 10
  }

  /** The `validate` hook of each kind: Pass, or the error it raises. */
  function Validate(kind: Kind, val: string): (o: Outcome<Error>)
    ensures kind == NameKind ==> o == Pass
    ensures kind == PhoneKind ==>
      (o == Pass <==> |val| == 10 && forall i :: 0 <= i < |val| ==> '0' <= val[i] <= '9')
    ensures kind == PhoneKind && o != Pass ==> o == Fail(InvalidPhoneFormat)
    ensures kind == BirthdayKind ==> (o == Pass <==> Dates.Accepts(val))
    ensures kind == BirthdayKind && o != Pass ==> o == Fail(InvalidDateFormat)
  {
    match kind
    case NameKind => Pass
    case PhoneKind => if IsPhone(val) then Pass else Fail(InvalidPhoneFormat)
    case BirthdayKind => if Dates.Accepts(val) then Pass else Fail(InvalidDateFormat)
  }

  /** A field object; `value` plays the part of `_value`, and `str(field)` is `value`. */
  class Field {
    const kind: Kind
    var value: string

    /** The stored value passes the kind's validation. */
    ghost predicate Valid()
      reads this
    {
      Validate(kind, value) == Pass
    }

    /** `__init__` when the setter accepts the initial value. */
    constructor (kind: Kind, val: string)
      requires Validate(kind, val) == Pass
      ensures Valid() && this.kind == kind && value == val
    {
      this.kind := kind;
      value := val;
    }

    /**
     * The `value` property setter: validation runs before the assignment,
     * so a rejected value leaves the previous one in place.
     */
    method SetValue(val: string) returns (o: Outcome<Error>)
      requires Valid()
      modifies this
      ensures Valid()
      ensures o == Validate(kind, val)
      ensures value == if o == Pass then val else old(value)
    {
      o := Validate(kind, val);
      if o == Pass {
        value := val;
      }
    }
  }

  /**
   * `Name(val)`, `Phone(val)` or `Birthday(val)`: a fresh field holding
   * `val` exactly as given, or the error `validate` raises, in which case
   * no object escapes.
   */
  method NewField(kind: Kind, val: string) returns (r: Result<Field, Error>)
    ensures r.Success? <==> Validate(kind, val) == Pass
    ensures r.Failure? ==> Validate(kind, val) == Fail(r.error)
    ensures r.Success? ==> fresh(r.value) && r.value.Valid() && r.value.kind == kind && r.value.value == val
  {
    var o := Validate(kind, val);
    if o.Fail? {
      return Failure(o.error);
    }
    var f := new Field(kind, val);
    return Success(f);
  }

  /** Phone strings at the edges. */
  lemma PhoneExamples()
    ensures Validate(PhoneKind, "1234567890") == Pass
    ensures Validate(PhoneKind, "123456789") == Fail(InvalidPhoneFormat)
    ensures Validate(PhoneKind, "12345678901") == Fail(InvalidPhoneFormat)
    ensures Validate(PhoneKind, "12345-7890") == Fail(InvalidPhoneFormat)
    ensures Validate(PhoneKind, "") == Fail(InvalidPhoneFormat)
  {
    assert "12345-7890"[5] == '-';
  }

  /** Birthday strings at the edges: a leap day, a day past February, and no date at all. */
  lemma BirthdayExamples()
    ensures Validate(BirthdayKind, "2024-02-29") == Pass
    ensures Validate(BirthdayKind, "2023-02-30") == Fail(InvalidDateFormat)
    ensures Validate(BirthdayKind, "not-a-date") == Fail(InvalidDateFormat)
  {
    Dates.LeapYearFebruaryExample();
    Dates.PastFebruaryExamples();
    Dates.RejectedExamples();
  }
}
