/**
 * The interactive entry point (`main`): the three-option menu, the yes/no
 * confirmation and the comma-separated list of department names. Reading
 * the console is left to the caller; the three answers are parameters.
 */
module Menu {
  import opened Text

  /** The answers `main` accepts as "yes", after `strip().lower()`. */
  const Affirmative: set<string> := {"s", "si", "s\U{ED}", "y", "yes"}

  /** `confirmacion in ['s', 'si', 'sí', 'y', 'yes']` with
      `confirmacion = input(...).strip().lower()`. */
  predicate Confirms(answer: string) {
    Lower(Strip(answer)) in Affirmative
  }

  /** Whitespace around an answer never changes whether it confirms. */
  lemma ConfirmsPadded(before: string, answer: string, after: string)
    requires AllSpace(before) && AllSpace(after)
    ensures Confirms(before + answer + after) == Confirms(answer)
  {
    StripPadded(before, answer, after);
  }

  /** A confirming answer, once stripped, is one to three characters long
      and starts with 's' or 'y' in either case. */
  lemma ConfirmsShape(answer: string)
    requires Confirms(answer)
    ensures var t := Strip(answer);
      1 <= |t| <= 3 && (LowerChar(t[0]) == 's' || LowerChar(t[0]) == 'y')
  {
    AffirmativeShape(Strip(answer));
  }

  lemma AffirmativeShape(t: string)
    requires Lower(t) in Affirmative
    ensures 1 <= |t| <= 3 && (LowerChar(t[0]) == 's' || LowerChar(t[0]) == 'y')
  {
    var low := Lower(t);
    assert |low| == |t| && low[0] == LowerChar(t[0]);
    assert low == "s" || low == "si" || low == "s\U{ED}" || low == "y" || low == "yes";
  }

  lemma ConfirmsExamples()
    ensures Confirms("S\U{CD}") && Confirms("yes") && !Confirms("no") && !Confirms("")
  {
    StripTrimmed("S\U{CD}");
    assert Lower("S\U{CD}") == "s\U{ED}";
    StripTrimmed("yes");
    assert Lower("yes") == "yes";
    StripTrimmed("no");
    assert Lower("no") == "no";
    StripTrimmed("");
  }

  /** `[dept.strip() for dept in departamentos_input.split(',')]`. */
  function ParseNames(line: string): seq<string> {
    var pieces := Split(line, ',');
    seq(|pieces|, i requires 0 <= i < |pieces| => Strip(pieces[i]))
  }

  /** Each parsed name is free of commas and of surrounding whitespace. */
  lemma ParseNamesClean(line: string, i: nat)
    requires i < |ParseNames(line)|
    ensures ',' !in ParseNames(line)[i]
    ensures Strip(ParseNames(line)[i]) == ParseNames(line)[i]
  {
    var piece := Split(line, ',')[i];
    StripIdempotent(piece);
    if ',' in Strip(piece) {
      StripChars(piece, ',');
    }
  }

  /** A line without commas is a single name. */
  lemma ParseNamesOneName(line: string)
    ensures ',' !in line ==> ParseNames(line) == [Strip(line)]
  {
    if ',' !in line {
      SplitJoin([line], ',');
    }
  }

  /** What `main` goes on to do. */
  datatype Choice =
    | DownloadAllChosen
    | DownloadSpecificChosen(names: seq<string>)
    | Cancelled                                  // "Operación cancelada."
    | NoNamesGiven                               // "No se ingresaron departamentos."
    | Exit
    | InvalidOption

  /** `main`, with the option line, the names line and the confirmation
      line as parameters (a line `main` does not read is ignored). */
  function MainChoice(option: string, namesLine: string, answer: string): (c: Choice)
    ensures c.DownloadAllChosen? <==> Strip(option) == "1" && Confirms(answer)
    ensures c.DownloadSpecificChosen? <==>
      Strip(option) == "2" && Strip(namesLine) != [] && Confirms(answer)
    ensures c.DownloadSpecificChosen? ==> c.names == ParseNames(Strip(namesLine))
    ensures c.NoNamesGiven? <==> Strip(option) == "2" && Strip(namesLine) == []
    ensures c.Cancelled? <==>
      (Strip(option) == "1" || (Strip(option) == "2" && Strip(namesLine) != [])) && !Confirms(answer)
    ensures Strip(option) == "3" <==> c.Exit?
    ensures c.InvalidOption? <==> Strip(option) !in {"1", "2", "3"}
  {
    var opt := Strip(option);
    if opt == "1" then
      if Confirms(answer) then DownloadAllChosen else Cancelled
    else if opt == "2" then
      var line := Strip(namesLine);
      if line == [] then NoNamesGiven
      else if Confirms(answer) then DownloadSpecificChosen(ParseNames(line))
      else Cancelled
    else if opt == "3" then Exit
    else InvalidOption
  }
}
