/** The data a test framework list holds: one registered test. */
module UtTestEntry {
  import opened Wrappers

  /** One call of UtAssert (no type: the context decides) or of UtAssertEx. */
  datatype Assertion = Assertion(expression: bool, caseType: Option<nat>)

  /** What a callback does: it asserts, and it may register more tests. */
  datatype Script = Script(asserts: seq<Assertion>, adds: seq<Registration>)

  datatype Registration = Registration(entry: Entry, tag: nat)

  /** UtTestDataBaseEntry_t; an absent callback is NULL. */
  datatype Entry = Entry(setup: Option<Script>, test: Option<Script>, teardown: Option<Script>, name: string)
}
