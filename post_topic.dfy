/**
 * The closed set of post topics and the lookup that turns one keyword into a
 * topic, falling back to Unknown.
 */
module PostTopics {

  /** The seven recognised topics and the catch-all Unknown. */
  datatype PostTopic =
    | Haskell
    | FunctionalProgramming
    | Parsers
    | Interpreters
    | Quickcheck
    | Testing
    | Hson
    | Unknown

  /** The enum member's string value. */
  function Value(t: PostTopic): string {
    match t
    case Haskell => "haskell"
    case FunctionalProgramming => "functional programming"
    case Parsers => "parsers"
    case Interpreters => "interpreters"
    case Quickcheck => "quickcheck"
    case Testing => "testing"
    case Hson => "hson"
    case Unknown => "unknown"
  }

  /** The keyword table: exactly seven keys; "unknown" is not one of them. */
  const Topics: map<string, PostTopic> := map[
    "haskell" := Haskell,
    "functional programming" := FunctionalProgramming,
    "parsers" := Parsers,
    "interpreters" := Interpreters,
    "quickcheck" := Quickcheck,
    "testing" := Testing,
    "hson" := Hson
  ]

  /** `s` is the value of one of the seven real topics. */
  ghost predicate IsTopicValue(s: string) {
    exists t :: t != Unknown && Value(t) == s
  }

  /**
   * Looks a keyword up in the table, by exact string, and falls back to
   * Unknown; it never fails.
   */
  function ToPostTopic(topic: string): (t: PostTopic)
    ensures t != Unknown ==> Value(t) == topic
    ensures t == Unknown <==> !IsTopicValue(topic)
  {
    if topic in Topics then Topics[topic] else Unknown
  }

  /** Distinct topics have distinct values. */
  lemma ValueInjective(a: PostTopic, b: PostTopic)
    ensures Value(a) == Value(b) ==> a == b
  {
  }

  /** Each table key maps to the enum member whose value it is, and every real topic's value is a key. */
  lemma TableMatchesEnum()
    ensures forall k :: k in Topics ==> Topics[k] != Unknown && Value(Topics[k]) == k
    ensures forall t :: t != Unknown ==> Value(t) in Topics && Topics[Value(t)] == t
  {
    forall k | k in Topics
      ensures Topics[k] != Unknown && Value(Topics[k]) == k
    {
      assert Topics[k] in Topics.Values;
      assert Unknown !in Topics.Values;
    }
    forall t | t != Unknown
      ensures Value(t) in Topics && Topics[Value(t)] == t
    {
      RoundTrip(t);
    }
  }

  /** Two of the table's entries, spelled out. */
  lemma KnownKeywords()
    ensures ToPostTopic("haskell") == Haskell
    ensures ToPostTopic("functional programming") == FunctionalProgramming
    ensures ToPostTopic("hson") == Hson
  {
  }

  /** The lookup is exact: no trimming and no case folding. */
  lemma ExactLookup()
    ensures ToPostTopic("Haskell") == Unknown
    ensures ToPostTopic(" haskell") == Unknown
    ensures ToPostTopic("haskell ") == Unknown
    ensures ToPostTopic("") == Unknown
  {
  }

  /** The catch-all's own value is not a key. */
  lemma UnknownValueIsNotAKey()
    ensures ToPostTopic(Value(Unknown)) == Unknown
    ensures ToPostTopic("unknown") == Unknown
  {
  }

  /** Looking up a topic's value gives the topic back, for every topic including Unknown. */
  lemma RoundTrip(t: PostTopic)
    ensures ToPostTopic(Value(t)) == t
  {
    if t != Unknown {
      assert IsTopicValue(Value(t));
    }
  }

  /** Normalising an already normalised keyword changes nothing. */
  lemma Idempotent(s: string)
    ensures ToPostTopic(Value(ToPostTopic(s))) == ToPostTopic(s)
  {
    RoundTrip(ToPostTopic(s));
  }
}
