/**
 * Worked uses of the contact book, checked against the contracts of the
 * record and book operations alone.
 */
module Scenarios {
  import opened Wrappers
  import opened Fields
  import opened Records
  import opened AddressBooks
  import opened Lists

  /**
   * A contact with one phone has that phone edited: the new number is
   * found, the old one is not, and editing a number the contact does not
   * have raises PhoneNotFound.
   */
  method EditThenFind() returns (foundNew: bool, foundOld: bool, missing: Outcome<Error>)
    ensures foundNew && !foundOld
    ensures missing == Fail(PhoneNotFound)
  {
    PhoneExamples();
    assert Validate(PhoneKind, "0987654321") == Pass;
    var ann := new Record("Ann", None);
    var added := ann.AddPhone("1234567890");
    assert ann.Numbers() == [] + ["1234567890"];
    assert FirstIndex(ann.Numbers(), "1234567890") == Some(0);
    var edited := ann.EditPhone("1234567890", "0987654321");
    assert ann.Numbers() == ["0987654321"];
    var p := ann.FindPhone("0987654321");
    var q := ann.FindPhone("1234567890");
    foundNew, foundOld := p != null, q != null;
    missing := ann.EditPhone("5555555555", "0987654321");
    assert ann.Numbers() == ["0987654321"];
  }

  /**
   * Adding two records under one name keeps one entry, holding the second
   * record, and the file holds the same.
   */
  method AddTwiceOverwrites() returns (count: nat, second: bool, saved: bool)
    ensures count == 1 && second && saved
  {
    var store := new Store();
    var book := new AddressBook(store);
    var first := new Record("Bob", None);
    var other := new Record("Bob", Some(""));
    book.AddRecord(first);
    book.AddRecord(other);
    count := |book.keys|;
    second := book.Find("Bob") == other;
    saved := store.contents == Saved(book.keys, book.data);
  }
}
