/**
 * The console program: the text printed for each command, the parsing and
 * dispatch of one input line, and the read-dispatch-print loop.
 *
 * Output is the sequence of Console.WriteLine arguments, one element per call;
 * a "\n" inside an element is a line break the program writes itself.
 */
module Program {
  import opened Wrappers
  import opened Strings
  import opened MonkeyHelper

  /** The loop is either waiting for a command or has exited. */
  datatype Status = Awaiting | Exited

  /** What one command prints and the state the loop is in afterwards. */
  datatype Reply = Reply(output: seq<string>, status: Status)

  const ListHeader := "Available Monkeys:"
  const UsageMessage := "Usage: details [name]"
  const Farewell := "Goodbye!"
  const UnknownMessage := "Unknown command."
  const RandomHeading := "Random Monkey: "

  // ---------------------------------------------------------------------------
  // Output formatting

  /** One line of the list command. */
  function ListEntry(m: Monkey): string {
    "- " + m.name + " (" + m.species + ")"
  }

  function ListEntries(catalog: seq<Monkey>): (lines: seq<string>)
    ensures |lines| == |catalog|
    ensures forall i :: 0 <= i < |catalog| ==> lines[i] == ListEntry(catalog[i])
  {
    if catalog == [] then [] else [ListEntry(catalog[0])] + ListEntries(catalog[1..])
  }

  /** What ListMonkeys prints: the header, then one entry per record. */
  function ListLines(catalog: seq<Monkey>): seq<string> {
    [ListHeader] + ListEntries(catalog)
  }

  /** ListMonkeys: the header, then a foreach loop over the catalog. */
  method ListMonkeys(catalog: seq<Monkey>) returns (output: seq<string>)
    ensures |output| == |catalog| + 1 && output[0] == ListHeader
    ensures forall i :: 0 <= i < |catalog| ==> output[i + 1] == ListEntry(catalog[i])
    ensures output == ListLines(catalog)
  {
    output := [ListHeader];
    for i := 0 to |catalog|
      invariant |output| == i + 1 && output[0] == ListHeader
      invariant forall j :: 0 <= j < i ==> output[j + 1] == ListEntry(catalog[j])
    {
      output := output + [ListEntry(catalog[i])];
    }
  }

  function NotFoundMessage(name: string): string {
    "Monkey '" + name + "' not found."
  }

  /** The two WriteLine calls that show one record, its title line led by heading. */
  function Portrait(heading: string, m: Monkey): seq<string> {
    ["\n" + heading + m.name + " (" + m.species + ")\n" + m.description + "\n", m.asciiArt]
  }

  /** ShowMonkeyDetails: the record found by name, or the not-found message. */
  function ShowMonkeyDetails(catalog: seq<Monkey>, name: string): seq<string> {
    match GetMonkeyByName(catalog, name)
    case None => [NotFoundMessage(name)]
    case Some(m) => Portrait("", m)
  }

  /** ShowRandomMonkey, for the index the random source produced. */
  function ShowRandomMonkey(catalog: seq<Monkey>, index: nat): seq<string>
    requires index < |catalog|
  {
    Portrait(RandomHeading, GetRandomMonkey(catalog, index))
  }

  /** With distinct names, details of a name prints the record that has it. */
  lemma DetailsOfMember(catalog: seq<Monkey>, i: nat, name: string)
    requires DistinctNames(catalog)
    requires i < |catalog| && NameMatches(catalog[i], name)
    ensures ShowMonkeyDetails(catalog, name) == Portrait("", catalog[i])
    ensures ShowMonkeyDetails(catalog, name)[1] == catalog[i].asciiArt
  {
    GetMonkeyByNameFindsMember(catalog, i, name);
  }

  /** A name that matches no record prints exactly the not-found message. */
  lemma DetailsOfAbsent(catalog: seq<Monkey>, name: string)
    requires forall i :: 0 <= i < |catalog| ==> !NameMatches(catalog[i], name)
    ensures ShowMonkeyDetails(catalog, name) == [NotFoundMessage(name)]
  {
  }

  /** A random pick prints like details of its name, with the title led by "Random Monkey: ". */
  lemma RandomLikeDetails(catalog: seq<Monkey>, index: nat)
    requires DistinctNames(catalog) && index < |catalog|
    ensures var details := ShowMonkeyDetails(catalog, catalog[index].name);
            var random := ShowRandomMonkey(catalog, index);
            |details| == |random| == 2 && random[1] == details[1]
            && details[0][0] == '\n' && random[0] == "\n" + RandomHeading + details[0][1..]
  {
    DetailsOfMember(catalog, index, catalog[index].name);
    var m := catalog[index];
    var title := m.name + " (" + m.species + ")\n" + m.description + "\n";
    assert Portrait("", m)[0] == "\n" + title;
    assert Portrait(RandomHeading, m)[0] == "\n" + RandomHeading + title;
  }

  // ---------------------------------------------------------------------------
  // Parsing and dispatch of one line

  /** The outcome of reading one line: a blank line, or one of the verbs. */
  datatype Command = Blank | List | Details(name: Option<string>) | Random | Exit | Unknown

  /** The switch on the lower-cased verb. */
  function Dispatch(command: string, argument: Option<string>): Command {
    if command == "list" then List
    else if command == "details" then Details(argument)
    else if command == "random" then Random
    else if command == "exit" then Exit
    else Unknown
  }

  /**
   * Console.ReadLine()?.Trim(), the IsNullOrEmpty test, Split(' ', 2,
   * RemoveEmptyEntries) and ToLowerInvariant on the first part. None is the
   * null that ReadLine returns at the end of input.
   */
  function Parse(line: Option<string>): (cmd: Command)
    ensures cmd.Blank? <==> line.None? || AllWhiteSpace(line.value)
    ensures cmd.Details? && cmd.name.Some? ==> cmd.name.value != [] && cmd.name.value[0] != ' '
  {
    var input := if line.Some? then Trim(line.value) else [];
    if input == [] then Blank
    else
      var parts := SplitVerb(input);
      assert !AllSpaces(input) by { assert input[0] != ' '; }
      Dispatch(ToLower(parts[0]), if |parts| < 2 then None else Some(parts[1]))
  }

  /** A line made of a verb and an optional argument, separated by gap + 1 spaces. */
  function CommandLine(verb: string, gap: nat, argument: Option<string>): string {
    if argument.None? then verb else verb + Spaces(gap + 1) + argument.value
  }

  /** A verb: non-empty, with no space in it, and not starting with white space. */
  predicate IsVerb(verb: string) {
    verb != [] && ' ' !in verb && !IsWhiteSpace(verb[0])
  }

  /** An argument that starts with no space and ends with no white space. */
  predicate IsArgument(argument: Option<string>) {
    argument.Some? ==>
      var a := argument.value;
      a != [] && a[0] != ' ' && !IsWhiteSpace(a[|a| - 1])
  }

  /**
   * The pieces of a command line that trimming leaves alone: a verb, an
   * argument, and, when there is no argument, a verb that does not end in
   * white space. A verb followed by an argument may end in white space other
   * than a space (as in "list\t x"); it then stays part of the verb.
   */
  predicate IsCommandLine(verb: string, argument: Option<string>) {
    IsVerb(verb) && IsArgument(argument) && (argument.None? ==> !IsWhiteSpace(verb[|verb| - 1]))
  }

  /**
   * Parsing a padded command line gives the verb, dispatched on its lower-cased
   * form, and the argument as one piece, however many spaces separate them.
   */
  lemma ParseOfCommandLine(lead: string, verb: string, gap: nat, argument: Option<string>, trail: string)
    requires AllWhiteSpace(lead) && AllWhiteSpace(trail)
    requires IsCommandLine(verb, argument)
    ensures Parse(Some(lead + CommandLine(verb, gap, argument) + trail)) == Dispatch(ToLower(verb), argument)
  {
    var core := CommandLine(verb, gap, argument);
    if argument.None? {
      TrimOfPadded(lead, core, trail);
      SplitOfWord(verb);
    } else {
      var a := argument.value;
      assert core == verb + (Spaces(gap + 1) + a);
      assert core[|core| - 1] == a[|a| - 1];
      TrimOfPadded(lead, core, trail);
      SplitOfWordAndArgument(verb, gap, a);
    }
  }

  /** The argument of details is the trimmed rest of the line: it has no white space at either end. */
  lemma ParseArgumentTrimmed(line: Option<string>)
    requires Parse(line).Details? && Parse(line).name.Some?
    ensures var a := Parse(line).name.value; !IsWhiteSpace(a[|a| - 1])
  {
    var input := Trim(line.value);
    var parts := SplitVerb(input);
    assert !AllSpaces(input) by { assert input[0] != ' '; }
    assert |parts| == 2;
    var lead, gap := SplitReassembles(input);
    assert parts[1] == Parse(line).name.value;
    assert input[|input| - 1] == parts[1][|parts[1]| - 1];
  }

  /** A verb spelt in other letter cases is still a verb. */
  lemma IsVerbIgnoresCase(verb: string, other: string)
    requires IsVerb(verb) && EqualsIgnoreCase(verb, other)
    ensures IsVerb(other) && IsWhiteSpace(other[|other| - 1]) == IsWhiteSpace(verb[|verb| - 1])
  {
    assert |other| == |verb|;
    forall i | 0 <= i < |other| ensures other[i] != ' ' && (IsWhiteSpace(other[i]) == IsWhiteSpace(verb[i])) {
      ToLowerCharKeepsWhiteSpace(verb[i], other[i]);
    }
  }

  // ---------------------------------------------------------------------------
  // One iteration of the loop

  /** Runs one parsed command; pick is the index the random source gives, used only by random. */
  function Execute(catalog: seq<Monkey>, cmd: Command, pick: nat): Reply
    requires pick < |catalog|
  {
    match cmd
    case Blank => Reply([], Awaiting)
    case List => Reply(ListLines(catalog), Awaiting)
    case Details(name) =>
      if name.None? then Reply([UsageMessage], Awaiting)
      else Reply(ShowMonkeyDetails(catalog, name.value), Awaiting)
    case Random => Reply(ShowRandomMonkey(catalog, pick), Awaiting)
    case Exit => Reply([Farewell], Exited)
    case Unknown => Reply([UnknownMessage], Awaiting)
  }

  /** One iteration of the while (true) loop of Main. */
  function Step(catalog: seq<Monkey>, line: Option<string>, pick: nat): Reply
    requires pick < |catalog|
  {
    Execute(catalog, Parse(line), pick)
  }

  predicate IsExit(line: Option<string>) {
    Parse(line) == Exit
  }

  /** A null or white-space line prints nothing and the loop goes on waiting. */
  lemma BlankLineIgnored(catalog: seq<Monkey>, line: Option<string>, pick: nat)
    requires pick < |catalog|
    requires line.None? || AllWhiteSpace(line.value)
    ensures Step(catalog, line, pick) == Reply([], Awaiting)
  {
  }

  /** exit is the only way out of the loop, and it prints the farewell. */
  lemma ExitIsTheOnlyWayOut(catalog: seq<Monkey>, line: Option<string>, pick: nat)
    requires pick < |catalog|
    ensures Step(catalog, line, pick).status == Exited <==> IsExit(line)
    ensures IsExit(line) ==> Step(catalog, line, pick).output == [Farewell]
  {
  }

  /** Lines whose verbs differ only in letter case do the same thing. */
  lemma VerbIgnoresCase(catalog: seq<Monkey>, lead: string, verb: string, other: string, gap: nat,
                        argument: Option<string>, trail: string, pick: nat)
    requires pick < |catalog|
    requires AllWhiteSpace(lead) && AllWhiteSpace(trail)
    requires IsCommandLine(verb, argument) && EqualsIgnoreCase(verb, other)
    ensures Step(catalog, Some(lead + CommandLine(verb, gap, argument) + trail), pick)
         == Step(catalog, Some(lead + CommandLine(other, gap, argument) + trail), pick)
  {
    IsVerbIgnoresCase(verb, other);
    EqualsIgnoreCaseIff(verb, other);
    ParseOfCommandLine(lead, verb, gap, argument, trail);
    ParseOfCommandLine(lead, other, gap, argument, trail);
  }

  /** The five verbs in any letter case, and what each prints. */
  lemma CommandLineSteps(catalog: seq<Monkey>, lead: string, verb: string, gap: nat,
                         argument: Option<string>, trail: string, pick: nat)
    requires pick < |catalog|
    requires AllWhiteSpace(lead) && AllWhiteSpace(trail)
    requires IsCommandLine(verb, argument)
    ensures var r := Step(catalog, Some(lead + CommandLine(verb, gap, argument) + trail), pick);
            var command := ToLower(verb);
            && (command == "list" ==> r == Reply(ListLines(catalog), Awaiting))
            && (command == "details" && argument.None? ==> r == Reply([UsageMessage], Awaiting))
            && (command == "details" && argument.Some? ==> r == Reply(ShowMonkeyDetails(catalog, argument.value), Awaiting))
            && (command == "random" ==> r == Reply(ShowRandomMonkey(catalog, pick), Awaiting))
            && (command == "exit" ==> r == Reply([Farewell], Exited))
            && (command !in {"list", "details", "random", "exit"} ==> r == Reply([UnknownMessage], Awaiting))
  {
    ParseOfCommandLine(lead, verb, gap, argument, trail);
  }

  /** details without a name prints the usage line whatever the catalog: it looks nothing up. */
  lemma DetailsWithoutName(catalog: seq<Monkey>, other: seq<Monkey>, line: Option<string>, pick: nat, otherPick: nat)
    requires pick < |catalog| && otherPick < |other|
    requires Parse(line) == Details(None)
    ensures Step(catalog, line, pick) == Step(other, line, otherPick) == Reply([UsageMessage], Awaiting)
  {
  }

  /** details of a name no record has prints exactly the not-found message. */
  lemma DetailsNotFound(catalog: seq<Monkey>, line: Option<string>, pick: nat, name: string)
    requires pick < |catalog|
    requires Parse(line) == Details(Some(name))
    requires forall i :: 0 <= i < |catalog| ==> !NameMatches(catalog[i], name)
    ensures Step(catalog, line, pick) == Reply([NotFoundMessage(name)], Awaiting)
  {
    DetailsOfAbsent(catalog, name);
  }

  /** list prints the header and one entry per record, in catalog order. */
  lemma ListStep(catalog: seq<Monkey>, line: Option<string>, pick: nat)
    requires pick < |catalog| && Parse(line) == List
    ensures var out := Step(catalog, line, pick).output;
            |out| == |catalog| + 1 && out[0] == ListHeader
            && forall i :: 0 <= i < |catalog| ==> out[i + 1] == ListEntry(catalog[i])
  {
  }

  /** random prints a record of the catalog. */
  lemma RandomStep(catalog: seq<Monkey>, line: Option<string>, pick: nat)
    requires pick < |catalog| && Parse(line) == Random
    ensures exists m :: m in catalog && Step(catalog, line, pick) == Reply(Portrait(RandomHeading, m), Awaiting)
  {
    var m := GetRandomMonkey(catalog, pick);
    assert Step(catalog, line, pick) == Reply(Portrait(RandomHeading, m), Awaiting);
  }

  // ---------------------------------------------------------------------------
  // The loop

  /** Every index the random source produces is within the catalog. */
  predicate PicksFit(catalog: seq<Monkey>, picks: seq<nat>) {
    forall i :: 0 <= i < |picks| ==> picks[i] < |catalog|
  }

  /** Joins the replies of successive lines, stopping at the first one that exits. */
  function Fold(replies: seq<Reply>): Reply {
    if replies == [] then Reply([], Awaiting)
    else if replies[0].status == Exited then replies[0]
    else
      var rest := Fold(replies[1..]);
      Reply(replies[0].output + rest.output, rest.status)
  }

  /** The fold exits exactly when one of the replies does. */
  lemma {:induction false} FoldExitsIff(replies: seq<Reply>)
    ensures Fold(replies).status == Exited <==> exists k :: 0 <= k < |replies| && replies[k].status == Exited
  {
    if replies != [] && replies[0].status != Exited {
      FoldExitsIff(replies[1..]);
      assert forall k :: 1 <= k < |replies| ==> replies[k] == replies[1..][k - 1];
    }
  }

  /** The reply each line would get on its own. */
  function Replies(catalog: seq<Monkey>, lines: seq<Option<string>>, picks: seq<nat>): (rs: seq<Reply>)
    requires |picks| == |lines| && PicksFit(catalog, picks)
    ensures |rs| == |lines|
    ensures forall i :: 0 <= i < |lines| ==> rs[i] == Step(catalog, lines[i], picks[i])
  {
    seq(|lines|, i requires 0 <= i < |lines| => Step(catalog, lines[i], picks[i]))
  }

  /** The loop of Main over the given lines, stopping at the first exit. */
  function Session(catalog: seq<Monkey>, lines: seq<Option<string>>, picks: seq<nat>): Reply
    requires |picks| == |lines| && PicksFit(catalog, picks)
  {
    Fold(Replies(catalog, lines, picks))
  }

  lemma RepliesAppend(catalog: seq<Monkey>, lines: seq<Option<string>>, picks: seq<nat>,
                      more: seq<Option<string>>, morePicks: seq<nat>)
    requires |picks| == |lines| && PicksFit(catalog, picks)
    requires |morePicks| == |more| && PicksFit(catalog, morePicks)
    ensures PicksFit(catalog, picks + morePicks)
    ensures Replies(catalog, lines + more, picks + morePicks) == Replies(catalog, lines, picks) + Replies(catalog, more, morePicks)
  {
    var all, allPicks := lines + more, picks + morePicks;
    assert PicksFit(catalog, allPicks) by {
      forall i | 0 <= i < |allPicks| ensures allPicks[i] < |catalog| {
        if i < |picks| { assert allPicks[i] == picks[i]; } else { assert allPicks[i] == morePicks[i - |picks|]; }
      }
    }
    var left, right := Replies(catalog, lines, picks), Replies(catalog, more, morePicks);
    forall i | 0 <= i < |all| ensures Replies(catalog, all, allPicks)[i] == (left + right)[i] {
      if i < |lines| {
        assert all[i] == lines[i] && allPicks[i] == picks[i];
      } else {
        assert all[i] == more[i - |lines|] && allPicks[i] == morePicks[i - |lines|];
      }
    }
  }

  /** The session exits exactly when some line is exit. */
  lemma SessionExitsIffExitLine(catalog: seq<Monkey>, lines: seq<Option<string>>, picks: seq<nat>)
    requires |picks| == |lines| && PicksFit(catalog, picks)
    ensures Session(catalog, lines, picks).status == Exited <==> exists k :: 0 <= k < |lines| && IsExit(lines[k])
  {
    var rs := Replies(catalog, lines, picks);
    FoldExitsIff(rs);
    forall k | 0 <= k < |lines| ensures rs[k].status == Exited <==> IsExit(lines[k]) {
      ExitIsTheOnlyWayOut(catalog, lines[k], picks[k]);
    }
  }

  /** Once the replies include an exit, further replies change nothing. */
  lemma {:induction false} FoldIgnoresAfterExit(replies: seq<Reply>, more: seq<Reply>)
    requires Fold(replies).status == Exited
    ensures Fold(replies + more) == Fold(replies)
  {
    var all := replies + more;
    assert all[0] == replies[0];
    if replies[0].status != Exited {
      assert all[1..] == replies[1..] + more;
      FoldIgnoresAfterExit(replies[1..], more);
    }
  }

  /** Replies that have not exited are followed by the fold of the rest. */
  lemma {:induction false} FoldAppend(replies: seq<Reply>, more: seq<Reply>)
    requires Fold(replies).status == Awaiting
    ensures Fold(replies + more) == Reply(Fold(replies).output + Fold(more).output, Fold(more).status)
  {
    var all := replies + more;
    if replies == [] {
      assert all == more;
    } else {
      assert all[0] == replies[0];
      assert all[1..] == replies[1..] + more;
      FoldAppend(replies[1..], more);
    }
  }

  /** Once a session has exited, further lines change nothing. */
  lemma SessionIgnoresAfterExit(catalog: seq<Monkey>, lines: seq<Option<string>>, picks: seq<nat>,
                                more: seq<Option<string>>, morePicks: seq<nat>)
    requires |picks| == |lines| && PicksFit(catalog, picks)
    requires |morePicks| == |more| && PicksFit(catalog, morePicks)
    requires Session(catalog, lines, picks).status == Exited
    ensures PicksFit(catalog, picks + morePicks)
    ensures Session(catalog, lines + more, picks + morePicks) == Session(catalog, lines, picks)
  {
    RepliesAppend(catalog, lines, picks, more, morePicks);
    FoldIgnoresAfterExit(Replies(catalog, lines, picks), Replies(catalog, more, morePicks));
  }

  /** A session that is still waiting continues with the next lines as a fresh one would. */
  lemma SessionAppend(catalog: seq<Monkey>, lines: seq<Option<string>>, picks: seq<nat>,
                      more: seq<Option<string>>, morePicks: seq<nat>)
    requires |picks| == |lines| && PicksFit(catalog, picks)
    requires |morePicks| == |more| && PicksFit(catalog, morePicks)
    requires Session(catalog, lines, picks).status == Awaiting
    ensures PicksFit(catalog, picks + morePicks)
    ensures var first, rest := Session(catalog, lines, picks), Session(catalog, more, morePicks);
            Session(catalog, lines + more, picks + morePicks) == Reply(first.output + rest.output, rest.status)
  {
    RepliesAppend(catalog, lines, picks, more, morePicks);
    FoldAppend(Replies(catalog, lines, picks), Replies(catalog, more, morePicks));
  }

  lemma PicksFitSplit(catalog: seq<Monkey>, picks: seq<nat>, n: nat)
    requires PicksFit(catalog, picks) && n <= |picks|
    ensures PicksFit(catalog, picks[..n]) && PicksFit(catalog, picks[n..])
  {
    assert forall i :: 0 <= i < n ==> picks[..n][i] == picks[i];
    assert forall i :: 0 <= i < |picks| - n ==> picks[n..][i] == picks[n + i];
  }

  /** The replies up to and including an exit fold to the same reply as all of them. */
  lemma FoldStopsAtExit(replies: seq<Reply>, k: nat)
    requires k < |replies| && replies[k].status == Exited
    ensures Fold(replies) == Fold(replies[..k + 1]) && Fold(replies).status == Exited
  {
    var head := replies[..k + 1];
    assert head[k].status == Exited;
    FoldExitsIff(head);
    assert Fold(head).status == Exited;
    assert replies == head + replies[k + 1..];
    FoldIgnoresAfterExit(head, replies[k + 1..]);
  }

  lemma RepliesPrefix(catalog: seq<Monkey>, lines: seq<Option<string>>, picks: seq<nat>, n: nat)
    requires |picks| == |lines| && PicksFit(catalog, picks) && n <= |lines|
    ensures PicksFit(catalog, picks[..n])
    ensures Replies(catalog, lines[..n], picks[..n]) == Replies(catalog, lines, picks)[..n]
  {
    PicksFitSplit(catalog, picks, n);
    var rs := Replies(catalog, lines, picks);
    forall i | 0 <= i < n ensures Replies(catalog, lines[..n], picks[..n])[i] == rs[..n][i] {
      assert lines[..n][i] == lines[i] && picks[..n][i] == picks[i];
    }
  }

  /** The session ends at the first exit line: what follows it is never read. */
  lemma SessionStopsAtExit(catalog: seq<Monkey>, lines: seq<Option<string>>, picks: seq<nat>, k: nat)
    requires |picks| == |lines| && PicksFit(catalog, picks)
    requires k < |lines| && IsExit(lines[k])
    ensures PicksFit(catalog, picks[..k + 1])
    ensures Session(catalog, lines, picks) == Session(catalog, lines[..k + 1], picks[..k + 1])
    ensures Session(catalog, lines, picks).status == Exited
  {
    var rs := Replies(catalog, lines, picks);
    ExitIsTheOnlyWayOut(catalog, lines[k], picks[k]);
    FoldStopsAtExit(rs, k);
    RepliesPrefix(catalog, lines, picks, k + 1);
  }

  /** Unfolds the session by one line, from position i on. */
  lemma SessionUnfold(catalog: seq<Monkey>, lines: seq<Option<string>>, picks: seq<nat>, i: nat)
    requires |picks| == |lines| && PicksFit(catalog, picks) && i < |lines|
    ensures PicksFit(catalog, picks[i..]) && PicksFit(catalog, picks[i + 1..])
    ensures var first := Step(catalog, lines[i], picks[i]);
            var rest := Session(catalog, lines[i + 1..], picks[i + 1..]);
            Session(catalog, lines[i..], picks[i..])
            == if first.status == Exited then first else Reply(first.output + rest.output, rest.status)
  {
    PicksFitSplit(catalog, picks, i);
    PicksFitSplit(catalog, picks, i + 1);
    var rs := Replies(catalog, lines[i..], picks[i..]);
    assert lines[i..][0] == lines[i] && picks[i..][0] == picks[i];
    assert rs[1..] == Replies(catalog, lines[i + 1..], picks[i + 1..]) by {
      forall j | 0 <= j < |lines| - i - 1 ensures rs[1..][j] == Replies(catalog, lines[i + 1..], picks[i + 1..])[j] {
        assert lines[i..][j + 1] == lines[i + 1..][j] && picks[i..][j + 1] == picks[i + 1..][j];
      }
    }
  }

  /** A blank line anywhere in the input has no effect on the session. */
  lemma SessionSkipsBlank(catalog: seq<Monkey>, lines: seq<Option<string>>, picks: seq<nat>,
                          blank: Option<string>, pick: nat, more: seq<Option<string>>, morePicks: seq<nat>)
    requires |picks| == |lines| && PicksFit(catalog, picks)
    requires |morePicks| == |more| && PicksFit(catalog, morePicks)
    requires pick < |catalog| && (blank.None? || AllWhiteSpace(blank.value))
    ensures PicksFit(catalog, picks + [pick] + morePicks) && PicksFit(catalog, picks + morePicks)
    ensures Session(catalog, lines + [blank] + more, picks + [pick] + morePicks)
         == Session(catalog, lines + more, picks + morePicks)
  {
    var tail, tailPicks := [blank] + more, [pick] + morePicks;
    assert lines + [blank] + more == lines + tail && picks + [pick] + morePicks == picks + tailPicks;
    RepliesAppend(catalog, [blank], [pick], more, morePicks);
    assert Replies(catalog, [blank], [pick]) == [Reply([], Awaiting)];
    assert Session(catalog, tail, tailPicks) == Session(catalog, more, morePicks) by {
      var rs := Replies(catalog, tail, tailPicks);
      assert rs[1..] == Replies(catalog, more, morePicks);
    }
    if Session(catalog, lines, picks).status == Exited {
      SessionIgnoresAfterExit(catalog, lines, picks, tail, tailPicks);
      SessionIgnoresAfterExit(catalog, lines, picks, more, morePicks);
    } else {
      SessionAppend(catalog, lines, picks, tail, tailPicks);
      SessionAppend(catalog, lines, picks, more, morePicks);
    }
  }

  /** What one turn of CommandLoop preserves, or what it establishes when the line is exit. */
  lemma LoopStep(catalog: seq<Monkey>, lines: seq<Option<string>>, picks: seq<nat>, read: nat, output: seq<string>)
    requires |picks| == |lines| && PicksFit(catalog, picks) && read < |lines|
    requires PicksFit(catalog, picks[read..])
    requires var rest := Session(catalog, lines[read..], picks[read..]);
             Session(catalog, lines, picks) == Reply(output + rest.output, rest.status)
    ensures PicksFit(catalog, picks[read + 1..])
    ensures var reply := Step(catalog, lines[read], picks[read]);
            var rest := Session(catalog, lines[read + 1..], picks[read + 1..]);
            && (reply.status == Exited <==> IsExit(lines[read]))
            && (reply.status == Exited ==> Session(catalog, lines, picks) == Reply(output + reply.output, Exited))
            && (reply.status != Exited ==> Session(catalog, lines, picks) == Reply(output + reply.output + rest.output, rest.status))
  {
    SessionUnfold(catalog, lines, picks, read);
    ExitIsTheOnlyWayOut(catalog, lines[read], picks[read]);
    JoinReplies(Session(catalog, lines, picks), output, Step(catalog, lines[read], picks[read]),
                Session(catalog, lines[read + 1..], picks[read + 1..]), Session(catalog, lines[read..], picks[read..]));
  }

  /** The arithmetic of LoopStep on replies: appending one more reply to the output so far. */
  lemma JoinReplies(whole: Reply, output: seq<string>, first: Reply, rest: Reply, fromHere: Reply)
    requires fromHere == if first.status == Exited then first else Reply(first.output + rest.output, rest.status)
    requires whole == Reply(output + fromHere.output, fromHere.status)
    ensures first.status == Exited ==> whole == Reply(output + first.output, Exited)
    ensures first.status != Exited ==> whole == Reply(output + first.output + rest.output, rest.status)
  {
  }

  /**
   * Main's while (true) loop over the given input lines: each line is parsed
   * and dispatched, its output appended, and the loop returns at exit. read is
   * the number of lines consumed. Running out of lines while Awaiting stands
   * for the real loop waiting for more input.
   */
  method CommandLoop(catalog: seq<Monkey>, lines: seq<Option<string>>, picks: seq<nat>)
    returns (output: seq<string>, status: Status, read: nat)
    requires |picks| == |lines| && PicksFit(catalog, picks)
    ensures Reply(output, status) == Session(catalog, lines, picks)
    ensures read <= |lines|
    ensures forall k :: 0 <= k < |lines| && k + 1 < read ==> !IsExit(lines[k])
    ensures status == Exited ==> 0 < read && IsExit(lines[read - 1])
    ensures status == Awaiting ==> read == |lines| && forall k :: 0 <= k < |lines| ==> !IsExit(lines[k])
  {
    output, status, read := [], Awaiting, 0;
    assert lines[0..] == lines && picks[0..] == picks;
    while read < |lines|
      invariant read <= |lines| && PicksFit(catalog, picks[read..])
      invariant forall k :: 0 <= k < read ==> !IsExit(lines[k])
      invariant var rest := Session(catalog, lines[read..], picks[read..]);
                Session(catalog, lines, picks) == Reply(output + rest.output, rest.status)
    {
      var reply := Step(catalog, lines[read], picks[read]);
      LoopStep(catalog, lines, picks, read, output);
      output := output + reply.output;
      read := read + 1;
      if reply.status == Exited {
        status := Exited;
        return;
      }
    }
    assert lines[read..] == [];
  }

  // ---------------------------------------------------------------------------
  // The seeded catalog, end to end

  lemma ListLiteral()
    ensures IsCommandLine("list", None) && ToLower("list") == "list"
  {
    VerbLiteral("list", "list");
  }

  lemma DetailsLiteral()
    ensures IsCommandLine("details", None) && ToLower("details") == "details"
  {
    VerbLiteral("details", "details");
  }

  lemma ExitLiteral()
    ensures IsCommandLine("EXIT", None) && ToLower("EXIT") == "exit"
  {
    VerbLiteral("EXIT", "exit");
  }

  lemma VerbLiteral(s: string, lower: string)
    requires 0 < |s| == |lower|
    requires forall i :: 0 <= i < |s| ==> 'A' <= s[i] <= 'Z' || 'a' <= s[i] <= 'z'
    requires forall i :: 0 <= i < |s| ==> ToLowerChar(s[i]) == lower[i]
    ensures IsCommandLine(s, None) && ToLower(s) == lower
  {
    LowerLiteral(s, lower);
  }

  lemma LowerLiteral(s: string, lower: string)
    requires |s| == |lower| && forall i :: 0 <= i < |s| ==> ToLowerChar(s[i]) == lower[i]
    ensures ToLower(s) == lower
  {
  }

  lemma CapuchinEntry()
    ensures ListEntry(GetMonkeys()[0]) == "- Capuchin (Cebus capucinus)"
  {
  }

  lemma MandrillEntry()
    ensures ListEntry(GetMonkeys()[1]) == "- Mandrill (Mandrillus sphinx)"
  {
  }

  lemma HowlerEntry()
    ensures ListEntry(GetMonkeys()[2]) == "- Howler (Alouatta)"
  {
  }

  lemma SeededListLines()
    ensures ListLines(GetMonkeys())
         == ["Available Monkeys:", "- Capuchin (Cebus capucinus)", "- Mandrill (Mandrillus sphinx)", "- Howler (Alouatta)"]
  {
    CapuchinEntry();
    MandrillEntry();
    HowlerEntry();
    var out := ListLines(GetMonkeys());
    assert |out| == 4 && out[0] == ListHeader;
    assert out[1] == ListEntry(GetMonkeys()[0]) && out[2] == ListEntry(GetMonkeys()[1]) && out[3] == ListEntry(GetMonkeys()[2]);
  }

  /** "list" prints the header and the three seeded records in order. */
  lemma SeededList()
    ensures Step(GetMonkeys(), Some("list"), 0)
         == Reply(["Available Monkeys:", "- Capuchin (Cebus capucinus)", "- Mandrill (Mandrillus sphinx)", "- Howler (Alouatta)"], Awaiting)
  {
    ListLiteral();
    ParseOfCommandLine([], "list", 0, None, []);
    assert [] + "list" + [] == "list";
    SeededListLines();
  }

  lemma NopeLiterals()
    ensures IsArgument(Some("Nope"))
    ensures [] + CommandLine("details", 0, Some("Nope")) + [] == "details Nope"
    ensures NotFoundMessage("Nope") == "Monkey 'Nope' not found."
  {
    assert Spaces(1) == " ";
  }

  /** "details Nope" prints exactly the not-found message. */
  lemma SeededDetailsNotFound()
    ensures Step(GetMonkeys(), Some("details Nope"), 0) == Reply(["Monkey 'Nope' not found."], Awaiting)
  {
    DetailsLiteral();
    NopeLiterals();
    ParseOfCommandLine([], "details", 0, Some("Nope"), []);
    SeededLookupMissesNope();
    DetailsOfAbsent(GetMonkeys(), "Nope");
  }

  lemma MandrillLiterals()
    ensures IsArgument(Some("Mandrill"))
    ensures [] + CommandLine("details", 0, Some("Mandrill")) + [] == "details Mandrill"
  {
    assert Spaces(1) == " ";
  }

  lemma ParseDetailsMandrill()
    ensures Parse(Some("details Mandrill")) == Details(Some("Mandrill"))
  {
    DetailsLiteral();
    MandrillLiterals();
    ParseOfCommandLine([], "details", 0, Some("Mandrill"), []);
  }

  lemma MandrillDetails()
    ensures ShowMonkeyDetails(GetMonkeys(), "Mandrill") == Portrait("", GetMonkeys()[1])
  {
    SeededCatalog();
    EqualsIgnoreCaseEquivalence("Mandrill", "Mandrill", "Mandrill");
    DetailsOfMember(GetMonkeys(), 1, "Mandrill");
  }

  /** "details Mandrill" prints the Mandrill record: its title and description, then its ASCII art. */
  lemma SeededDetailsMandrill()
    ensures Step(GetMonkeys(), Some("details Mandrill"), 0) == Reply(Portrait("", GetMonkeys()[1]), Awaiting)
  {
    ParseDetailsMandrill();
    MandrillDetails();
  }

  /** "EXIT" prints the farewell and ends the loop. */
  lemma SeededExit()
    ensures Step(GetMonkeys(), Some("EXIT"), 0) == Reply(["Goodbye!"], Exited)
  {
    ExitLiteral();
    ParseOfCommandLine([], "EXIT", 0, None, []);
    assert [] + "EXIT" + [] == "EXIT";
  }
}
