/**
 * The records of the application: the topic, difficulty and workflow-status
 * enumerations (each with the string the enumeration member stands for) and
 * the problem record that the library stores.
 */
module Types {
  import opened Wrappers

  datatype Topic = Algebra | Combinatorics | Geometry | NumberTheory {
    function Label(): string {
      match this
      case Algebra => "Algebra"
      case Combinatorics => "Combinatorics"
      case Geometry => "Geometry"
      case NumberTheory => "Number Theory"
    }
  }

  datatype Difficulty = Easy | Medium | Hard {
    function Label(): string {
      match this
      case Easy => "IMO SL C1/G1"
      case Medium => "IMO SL C3/G3"
      case Hard => "IMO Q3/Q6"
    }
  }

  datatype ProblemStatus = Draft | Refining | Verified | Shortlist {
    function Label(): string {
      match this
      case Draft => "Draft"
      case Refining => "Refining"
      case Verified => "Verified"
      case Shortlist => "Shortlist Ready"
    }
  }

  /** Distinct statuses stand for distinct strings. */
  lemma StatusLabelInjective(a: ProblemStatus, b: ProblemStatus)
    requires a.Label() == b.Label()
    ensures a == b
  {
    assert a.Label()[0] == b.Label()[0];
  }

  /**
   * A stored problem. `status` holds the raw value found in the record:
   * records come back from storage and from shared links as parsed JSON,
   * so the field may be missing (None) or hold a string outside the
   * enumeration. The optional text fields are None when absent.
   */
  datatype Problem = Problem(
    id: string,
    title: string,
    statement: string,
    topic: Topic,
    difficulty: Difficulty,
    status: Option<string>,
    solution: Option<string>,
    leanCode: Option<string>,
    notes: Option<string>,
    created: int,
    tags: seq<string>,
    jsxGraphCode: Option<string>,
    asymptoteCode: Option<string>,
    similars: Option<string>,
    stressTest: Option<string>)
}
