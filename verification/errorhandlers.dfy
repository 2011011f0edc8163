/** The error handlers of `epub2audio/error.py`. A handler is asked what to
    do with text the synthesizer rejected and answers with replacement text
    or with None (skip it). The console and the editor are the outside world
    here: the console is the sequence of lines `input()` would return, and
    the editor is the sequence of outcomes of the editor runs. */
module ErrorHandlers {
  import opened Wrappers
  import opened Strings

  /** What one editor run does to the temporary file. */
  datatype EditorSession =
    | Unchanged                    // the user quits without saving
    | Saved(contents: string)      // the file holds `contents` afterwards
    | Failed                       // the editor exits with a non-zero status

  /** The lines still to be typed at the console and the editor runs still to
      happen. */
  datatype Interaction = Interaction(console: seq<string>, editor: seq<EditorSession>)

  /** The three handlers the program offers. */
  datatype HandlerKind = Skip | EditInteractively | Ask

  /** The exceptions a handler lets through: `EOFError` from `input()` when
      the console has no more lines, `CalledProcessError` from the editor. */
  datatype HandlerError = ConsoleClosed | EditorFailed

  /** A handler's answer and the interaction left afterwards. */
  datatype Reply = Reply(replacement: Option<string>, rest: Interaction)

  /** How much interaction is left. */
  function Remaining(ia: Interaction): nat {
    |ia.console| + |ia.editor|
  }

  /** `SkipErrorHandler.handle_error`. */
  function SkipHandle(text: string, ia: Interaction): (r: Reply)
    ensures r.replacement.None?
    ensures r.rest == ia
  {
    Reply(None, ia)
  }

  /** `EditInteractivelyErrorHandler.handle_error`: write the text to a
      temporary file, run the editor on it, return what the file holds. A run
      beyond the listed ones counts as a failed run. */
  function EditHandle(text: string, ia: Interaction): (r: Result<Reply, HandlerError>)
    ensures r.Err? <==> |ia.editor| == 0 || ia.editor[0].Failed?
    ensures r.Err? ==> r.error == EditorFailed
    ensures r.Ok? ==> r.value.replacement.Some? && r.value.rest == ia.(editor := ia.editor[1..])
    ensures |ia.editor| > 0 && ia.editor[0] == Unchanged ==> r.Ok? && r.value.replacement == Some(text)
    ensures |ia.editor| > 0 && ia.editor[0].Saved? ==> r.Ok? && r.value.replacement == Some(ia.editor[0].contents)
  {
    if |ia.editor| == 0 then Err(EditorFailed)
    else
      var rest := ia.(editor := ia.editor[1..]);
      match ia.editor[0]
      case Unchanged => Ok(Reply(Some(text), rest))
      case Saved(contents) => Ok(Reply(Some(contents), rest))
      case Failed => Err(EditorFailed)
  }

  /** A console line the ask loop accepts: `s` or `e` in either case, and
      nothing else around it. */
  predicate IsChoice(line: string) {
    Lower(line) == "s" || Lower(line) == "e"
  }

  /** Index of the first accepted line, or the number of lines when none is
      accepted. */
  function FirstChoice(lines: seq<string>): (k: nat)
    ensures k <= |lines|
    ensures forall j :: 0 <= j < k ==> !IsChoice(lines[j])
    ensures k < |lines| ==> IsChoice(lines[k])
  {
    if |lines| == 0 || IsChoice(lines[0]) then 0 else 1 + FirstChoice(lines[1..])
  }

  /** `AskErrorHandler.handle_error`: prompt until a line reads `s` or `e`
      once lower-cased; skip on `s`, edit on `e`. */
  function AskHandle(text: string, ia: Interaction): (r: Result<Reply, HandlerError>)
    decreases |ia.console|
  {
    if |ia.console| == 0 then Err(ConsoleClosed)
    else
      var choice := Lower(ia.console[0]);
      var rest := ia.(console := ia.console[1..]);
      if choice == "s" then Ok(SkipHandle(text, rest))
      else if choice == "e" then EditHandle(text, rest)
      else AskHandle(text, rest)
  }

  /** The ask loop consumes exactly the lines up to and including the first
      accepted one; which handler it delegates to depends on that line alone,
      and a console with no accepted line ends in `EOFError`. */
  lemma {:induction false} AskHandleChoice(text: string, ia: Interaction)
    ensures var k := FirstChoice(ia.console);
            && (k == |ia.console| ==> AskHandle(text, ia) == Err(ConsoleClosed))
            && (k < |ia.console| && Lower(ia.console[k]) == "s" ==>
                  AskHandle(text, ia) == Ok(Reply(None, ia.(console := ia.console[k + 1..]))))
            && (k < |ia.console| && Lower(ia.console[k]) == "e" ==>
                  AskHandle(text, ia) == EditHandle(text, ia.(console := ia.console[k + 1..])))
    decreases |ia.console|
  {
    if |ia.console| > 0 && !IsChoice(ia.console[0]) {
      var rest := ia.(console := ia.console[1..]);
      AskHandleChoice(text, rest);
      assert FirstChoice(ia.console) == 1 + FirstChoice(rest.console);
      assert forall k :: 0 <= k <= |rest.console| ==> rest.console[k..] == ia.console[k + 1..];
    }
  }

  /** Dispatch on the configured handler. */
  function Handle(kind: HandlerKind, text: string, ia: Interaction): (r: Result<Reply, HandlerError>)
    ensures r.Ok? ==> Remaining(r.value.rest) <= Remaining(ia)
    ensures r.Ok? && r.value.replacement.Some? ==> Remaining(r.value.rest) < Remaining(ia)
    ensures kind == Skip ==> r == Ok(Reply(None, ia))
    ensures kind == EditInteractively ==> r == EditHandle(text, ia)
    ensures kind == Ask ==> r == AskHandle(text, ia)
  {
    match kind
    case Skip => Ok(SkipHandle(text, ia))
    case EditInteractively => EditHandle(text, ia)
    case Ask => AskHandleShrinks(text, ia); AskHandle(text, ia)
  }

  /** The ask loop uses up at least one line whenever it answers. */
  lemma {:induction false} AskHandleShrinks(text: string, ia: Interaction)
    ensures AskHandle(text, ia).Ok? ==> Remaining(AskHandle(text, ia).value.rest) < Remaining(ia)
    decreases |ia.console|
  {
    if |ia.console| > 0 {
      AskHandleShrinks(text, ia.(console := ia.console[1..]));
    }
  }

  /** The edit handler never skips: whenever it returns, it returns text. */
  lemma EditNeverSkips(text: string, ia: Interaction)
    ensures Handle(EditInteractively, text, ia).Ok? ==> Handle(EditInteractively, text, ia).value.replacement.Some?
  {
  }

  /** Only an exact `s` or `e` is accepted: `skip`, an empty line and ` s`
      are all asked again, and `S` skips. */
  lemma AskRepromptsUntilSkip(text: string)
    ensures AskHandle(text, Interaction(["skip", "", " s", "S"], [])) == Ok(Reply(None, Interaction([], [])))
  {
    assert Lower("skip") != "s" && Lower("skip") != "e" by { assert |Lower("skip")| == 4; }
    assert Lower("") == "";
    assert Lower(" s") != "s" && Lower(" s") != "e" by { assert |Lower(" s")| == 2; }
    assert Lower("S") == "s";
    assert ["skip", "", " s", "S"][1..] == ["", " s", "S"];
    assert ["", " s", "S"][1..] == [" s", "S"];
    assert [" s", "S"][1..] == ["S"];
    assert ["S"][1..] == [];
    assert AskHandle(text, Interaction(["S"], [])) == Ok(Reply(None, Interaction([], [])));
    assert AskHandle(text, Interaction([" s", "S"], [])) == AskHandle(text, Interaction(["S"], []));
    assert AskHandle(text, Interaction(["", " s", "S"], [])) == AskHandle(text, Interaction([" s", "S"], []));
  }

  /** `E` is accepted after `edit` is rejected, and an editor run that leaves
      the file alone hands back the same text. */
  lemma AskRepromptsUntilEdit(text: string)
    ensures AskHandle(text, Interaction(["edit", "E"], [Unchanged])) == Ok(Reply(Some(text), Interaction([], [])))
  {
    assert Lower("edit") != "s" && Lower("edit") != "e" by { assert |Lower("edit")| == 4; }
    assert Lower("E") == "e";
    assert ["edit", "E"][1..] == ["E"];
    assert ["E"][1..] == [];
    assert [Unchanged][1..] == [];
    assert AskHandle(text, Interaction(["E"], [Unchanged])) == EditHandle(text, Interaction([], [Unchanged]));
  }

  /** A console that closes before an accepted line raises. */
  lemma AskWithoutChoiceRaises(text: string)
    ensures AskHandle(text, Interaction(["x"], [])) == Err(ConsoleClosed)
  {
    assert Lower("x") == "x";
    assert ["x"][1..] == [];
  }
}
