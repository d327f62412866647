/** Command-line helpers (class `Utils` of bin/metcalf-cli.js).

  The process arguments are a parameter: `argv` is the whole of
  `process.argv`, whose first two entries are the interpreter and the script,
  so the search for options starts at index 2.
 */
module Cli {
  import opened Results
  import opened Strings

  const ConfigHint := " Please check the Metcalf.json file."
  const NothingDone := " Nothing was metcalfed."

  /** The text `exitWithError` prints after `[ERROR] ` before exiting with
      status 1: the message, then the configuration hint when the error is a
      configuration error, then the note that nothing ran when processing had
      not started. */
  function ErrorText(message: string, wasProcessingStarted: bool, isConfigError: bool): (r: string)
    ensures StartsWith(r, message)
    ensures !wasProcessingStarted ==> EndsWith(r, NothingDone)
    ensures wasProcessingStarted && isConfigError ==> EndsWith(r, ConfigHint)
    ensures wasProcessingStarted && !isConfigError ==> r == message
    ensures |r| == |message| + (if isConfigError then |ConfigHint| else 0) + (if wasProcessingStarted then 0 else |NothingDone|)
  {
    var hinted := if isConfigError then message + ConfigHint else message;
    if wasProcessingStarted then hinted else hinted + NothingDone
  }

  /** A configuration error raised before processing keeps the message's
      beginning and ends with its last part followed by both notes. */
  lemma ConfigErrorFrame(head: string, middle: string, tail: string)
    ensures StartsWith(ErrorText(head + middle + tail, false, true), head)
    ensures StartsWith(ErrorText(head + middle + tail, false, true), head + middle)
    ensures EndsWith(ErrorText(head + middle + tail, false, true), tail + ConfigHint + NothingDone)
    ensures |ErrorText(head + middle + tail, false, true)| == |head + middle| + |tail + ConfigHint + NothingDone|
  {
    var hint, done := ConfigHint, NothingDone;
    assert ErrorText(head + middle + tail, false, true) == head + middle + tail + hint + done;
    Frame(head, middle, tail, hint, done);
  }

  /** The option `name=value` among `argv[i..]`, first match wins. */
  function ArgFrom(argv: seq<string>, name: string, i: nat): (r: Option<string>)
    ensures r.None? <==> forall k :: i <= k < |argv| ==> !StartsWith(argv[k], name + "=")
    ensures r.Some? ==> exists k :: i <= k < |argv| && argv[k] == name + "=" + r.value
                                    && forall m :: i <= m < k ==> !StartsWith(argv[m], name + "=")
    decreases |argv| - i
  {
    if i >= |argv| then None
    else if StartsWith(argv[i], name + "=") then
      var v := argv[i][|name| + 1..];
      assert argv[i] == name + "=" + v;
      Some(v)
    else ArgFrom(argv, name, i + 1)
  }

  /** `getCliArg(name)`: the value of the first `name=value` argument; a
      missing option is `None` (the caller supplies the default). */
  function GetCliArg(argv: seq<string>, name: string): (r: Option<string>)
    ensures r.None? <==> forall k :: 2 <= k < |argv| ==> !StartsWith(argv[k], name + "=")
    ensures r.Some? ==> exists k :: 2 <= k < |argv| && argv[k] == name + "=" + r.value
                                    && forall m :: 2 <= m < k ==> !StartsWith(argv[m], name + "=")
  {
    ArgFrom(argv, name, 2)
  }

  function SwitchFrom(argv: seq<string>, name: string, i: nat): (r: bool)
    ensures r <==> exists k :: i <= k < |argv| && argv[k] == name
    decreases |argv| - i
  {
    if i >= |argv| then false
    else if argv[i] == name then true
    else SwitchFrom(argv, name, i + 1)
  }

  /** `existsCliSwitch(name)`: some argument after the script is exactly `name`. */
  function ExistsCliSwitch(argv: seq<string>, name: string): (r: bool)
    ensures r <==> exists k :: 2 <= k < |argv| && argv[k] == name
  {
    SwitchFrom(argv, name, 2)
  }

  /** `getCliArgSplitBy(name, sep, null)`: the option's value cut at every
      `sep`; a missing or empty value (both falsy) gives `None`. */
  function GetCliArgSplitBy(argv: seq<string>, name: string, sep: char): (r: Option<seq<string>>)
    ensures r.None? <==> GetCliArg(argv, name).None? || GetCliArg(argv, name).value == ""
    ensures r.Some? ==> |r.value| >= 1 && Join(r.value, [sep]) == GetCliArg(argv, name).value
    ensures r.Some? ==> forall i :: 0 <= i < |r.value| ==> sep !in r.value[i]
  {
    match GetCliArg(argv, name)
    case None => None
    case Some(v) =>
      if v == "" then None
      else
        JoinSplit(v, sep);
        Some(Split(v, sep))
  }
}
