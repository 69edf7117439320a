/** The assertion helpers available to test bodies. Each one either returns
    normally or throws `assertion_error` with a message; the throw is the
    `Failure` of a result. */
module Assertions {
  import opened Results
  import opened Decimal

  /** What the detail given by the test author is introduced with. */
  const DetailMarker: string := "\n    Test detail: "

  /** The outcome of an assertion: returns normally, or throws with a message. */
  type Outcome = Result<(), string>

  /** `assert_`: fails when the condition is false, with the message alone
      when there is no detail and with the detail appended otherwise. */
  function Check(condition: bool, message: string, detail: string): (r: Outcome)
    ensures r.Success? <==> condition
    ensures r.Failure? && detail == "" ==> r.error == message
    ensures r.Failure? && detail != "" ==> r.error == message + DetailMarker + detail
  {
    if !condition then
      if detail == "" then Failure(message)
      else Failure(message + DetailMarker + detail)
    else Success(())
  }

  /** The detail of a failure message that starts with `message`: what
      follows the marker, or nothing when the message stands alone. */
  function DetailOf(error: string, message: string): string
  {
    if |error| >= |message| + |DetailMarker| && error[|message|..|message| + |DetailMarker|] == DetailMarker
    then error[|message| + |DetailMarker|..]
    else ""
  }

  /** The failure message keeps the message in front and the detail can be
      read back from it. */
  lemma CheckDetailRecoverable(condition: bool, message: string, detail: string)
    ensures !condition ==> message <= Check(condition, message, detail).error
    ensures !condition ==> DetailOf(Check(condition, message, detail).error, message) == detail
  {
    if !condition && detail != "" {
      var err := Check(condition, message, detail).error;
      assert err[|message|..|message| + |DetailMarker|] == DetailMarker;
      assert err[|message| + |DetailMarker|..] == detail;
    }
  }

  /** `std::to_string` of a `bool`, which is promoted to `int` first. */
  function BoolToString(b: bool): (s: string)
    ensures s == if b then "1" else "0"
  {
    NatToString(if b then 1 else 0)
  }

  /** `assertTrue_`: fails exactly when the condition is false, saying that
      0 is not true. */
  function AssertTrue(condition: bool, detail: string): (r: Outcome)
    ensures r.Success? <==> condition
    ensures r.Failure? && detail == "" ==> r.error == "Failed asserting that 0 is True."
    ensures r.Failure? && detail != "" ==> r.error == "Failed asserting that 0 is True." + DetailMarker + detail
    ensures r.Failure? ==> DetailOf(r.error, "Failed asserting that 0 is True.") == detail
  {
    var message := "Failed asserting that " + BoolToString(condition) + " is True.";
    CheckDetailRecoverable(condition, message, detail);
    Check(condition, message, detail)
  }

  /** `assertFalse_`: fails exactly when the condition is true, saying that
      1 is not false. */
  function AssertFalse(condition: bool, detail: string): (r: Outcome)
    ensures r.Success? <==> !condition
    ensures r.Failure? && detail == "" ==> r.error == "Failed asserting that 1 is False."
    ensures r.Failure? && detail != "" ==> r.error == "Failed asserting that 1 is False." + DetailMarker + detail
    ensures r.Failure? ==> DetailOf(r.error, "Failed asserting that 1 is False.") == detail
  {
    var message := "Failed asserting that " + BoolToString(condition) + " is False.";
    CheckDetailRecoverable(!condition, message, detail);
    Check(!condition, message, detail)
  }

  /** `assertEqual_` over any type with equality: fails exactly when the
      values differ, without printing them. */
  function AssertEqual<T(==)>(left: T, right: T, detail: string): (r: Outcome)
    ensures r.Success? <==> left == right
    ensures r.Failure? && detail == "" ==> r.error == "Failed asserting that two values are equal."
    ensures r.Failure? && detail != "" ==> r.error == "Failed asserting that two values are equal." + DetailMarker + detail
    ensures r.Failure? ==> DetailOf(r.error, "Failed asserting that two values are equal.") == detail
  {
    var message := "Failed asserting that two values are equal.";
    CheckDetailRecoverable(left == right, message, detail);
    Check(left == right, message, detail)
  }
}
