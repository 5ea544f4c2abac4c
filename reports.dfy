/** The failures the engine hands to its reporter (`usage.fail`). Each
    evaluator returns, in order, the records it would report; message text,
    pluralisation and localisation belong to the reporter. */
module Reports {
  import opened Values
  import opened Conditions

  /** One key of a failed choice check: the offending values and the permitted ones. */
  datatype InvalidEntry = InvalidEntry(key: string, given: seq<Value>, choices: seq<Value>)

  datatype Failure =
    | TooFewNonOptions(observed: int, min: int)
    | TooManyNonOptions(observed: int, max: int)
    | CustomCount(text: Option<string>)         // a demanded-count custom message; None is `null`
    | MissingRequired(keys: seq<string>, guidance: seq<string>)
    | UnknownArgument(names: seq<Value>)
    | UnknownCommand(names: seq<Value>)
    | InvalidValues(entries: seq<InvalidEntry>)
    | CheckFailed(source: string)               // a custom check returned a falsy value
    | CheckMessage(message: string)             // a custom check returned or threw a message
    | ImplicationsFailed(edges: seq<(string, KeyOrPos)>)
    | MutuallyExclusive(key: string, other: string)
    | DidYouMean(command: string)
}
