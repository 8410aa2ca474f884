/** `DuplicateDetectorFactory::create`: the command-line mode flag selects a
    strategy, and any other string is an error. */
module DetectorFactory {
  import opened Wrappers
  import opened DuplicateDetection

  const UnknownStrategyPrefix: string := "Unknown strategy type: "

  /** The strategy for a flag, or the message of the `invalid_argument` that
      `create` throws. */
  function Create(strategyType: string): (r: Result<Strategy, string>)
    ensures r.Ok? <==> strategyType == "-n" || strategyType == "-h"
    ensures r == Ok(ByName) <==> strategyType == "-n"
    ensures r == Ok(ByContent) <==> strategyType == "-h"
    ensures r.Err? ==> r.error == UnknownStrategyPrefix + strategyType
  {
    if strategyType == "-n" then Ok(ByName)
    else if strategyType == "-h" then Ok(ByContent)
    else Err(UnknownStrategyPrefix + strategyType)
  }

  /** The flag that selects a strategy. */
  function Flag(s: Strategy): string
  {
    match s
    case ByName => "-n"
    case ByContent => "-h"
  }

  /** Each strategy is reached by exactly one flag: `Flag` and `Create` are
      inverse to each other. */
  lemma CreateFlagRoundTrip(s: Strategy, strategyType: string)
    ensures Create(Flag(s)) == Ok(s)
    ensures Create(strategyType).Ok? ==> Flag(Create(strategyType).value) == strategyType
  {
  }

  /** The error message names the rejected input, so different unknown inputs
      give different errors. */
  lemma ErrorNamesInput(a: string, b: string)
    requires Create(a).Err? && Create(b).Err?
    ensures Create(a) == Create(b) <==> a == b
  {
    if Create(a) == Create(b) {
      assert a == (UnknownStrategyPrefix + a)[|UnknownStrategyPrefix|..];
      assert b == (UnknownStrategyPrefix + b)[|UnknownStrategyPrefix|..];
    }
  }
}
