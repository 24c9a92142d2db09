/**
 * Calls of the handlers on a fresh store, with the outcomes proved from
 * their contracts alone.
 */
module Scenarios {
  import opened Validation
  import opened Customers

  const Ann := Payload("Ann", "Lee", "555-1111", "ann@gmail.com")

  /**
   * The same payload submitted twice in sequence: the first is inserted, the
   * second is refused because its email is now in use.
   */
  method SubmitTwice() returns (first: Outcome, second: Outcome, stored: nat)
    ensures first == Accept && second == Reject(EmailInUse) && stored == 1
  {
    assert Ann.email == "ann" + GmailSuffix;
    var store := new CustomerStore();
    first := store.PostCustomer(Ann, 1);
    assert store.records[0].email == Ann.email;
    second := store.PostCustomer(Ann, 2);
    stored := |store.records|;
  }

  /** A digit in the first name is refused with the name message, and nothing is stored. */
  method DigitInName() returns (outcome: Outcome, stored: nat)
    ensures outcome == Reject(InvalidName) && stored == 0
  {
    var store := new CustomerStore();
    assert "A1"[1] == '1';
    outcome := store.PostCustomer(Payload("A1", "Lee", "555", "a@gmail.com"), 1);
    stored := |store.records|;
  }

  /** An empty telephone passes the redirecting checks and gets the 400 answer; nothing is stored. */
  method MissingTelephone() returns (outcome: Outcome, stored: nat)
    ensures outcome == BadRequest && stored == 0
  {
    var store := new CustomerStore();
    assert Ann.email == "ann" + GmailSuffix;
    outcome := store.PostCustomer(Ann.(telephone := ""), 1);
    stored := |store.records|;
  }

  /**
   * Editing a record while keeping its own email is accepted; moving a second
   * record onto that email is refused.
   */
  method EditKeepsOwnEmail() returns (own: Outcome, taken: Outcome)
    ensures own == Accept && taken == Reject(EmailInUse)
  {
    var bob := Payload("Bob", "Ray", "555-2222", "bob@gmail.com");
    assert Ann.email == "ann" + GmailSuffix;
    assert bob.email == "bob" + GmailSuffix;
    var store := new CustomerStore();
    var r := store.PostCustomer(Ann, 1);
    assert store.records[0].email != bob.email by {
      assert Ann.email[0] != bob.email[0];
    }
    r := store.PostCustomer(bob, 2);
    assert store.records == [
      Customer(0, "Ann", "Lee", "555-1111", "ann@gmail.com", 1, 1),
      Customer(1, "Bob", "Ray", "555-2222", "bob@gmail.com", 2, 2)];
    own := store.EditPost(0, Ann.(telephone := "555-3333"), 3);
    taken := store.EditPost(1, bob.(email := Ann.email), 4);
  }

  /**
   * The edit handler applies no name check: a first name the create handler
   * refuses is stored by an edit.
   */
  method EditSkipsNameCheck() returns (outcome: Outcome, storedName: string)
    ensures outcome == Accept && storedName == "A1" && !IsValidName(storedName)
  {
    assert Ann.email == "ann" + GmailSuffix;
    var store := new CustomerStore();
    var r := store.PostCustomer(Ann, 1);
    outcome := store.EditPost(0, Ann.(firstName := "A1"), 2);
    storedName := store.records[0].firstName;
    assert storedName[1] == '1';
  }
}
