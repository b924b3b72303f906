/** What the flags of a command line are parsed as, and which of them fails the run, from what is written. */
module ArgFlags {
  import opened ArgSpec
  import opened ArgTheorems

  // ----- What is written -----

  /** What stands after an option: more letters of its cluster, nothing, or the next argument. */
  datatype Follow = Inside | End | Next(arg: string)

  /** An option as written: its name, the text after its equals sign if any, and what follows. */
  datatype Ask = Ask(name: string, value: string, follow: Follow)

  function After(rest: seq<string>): Follow {
    if rest == [] then End else Next(rest[0])
  }

  /** A cluster asks for one option for each letter, a long option for one. */
  function AsksOf(token: Token, rest: seq<string>): (asks: seq<Ask>) {
    match token
    case Word => []
    case Cluster(letters) =>
      seq(|letters|, i requires 0 <= i < |letters| =>
        Ask([letters[i]], "", if i == |letters| - 1 then After(rest) else Inside))
    case Long(name, value) => [Ask(name, value, After(rest))]
  }

  /** Everything asked for before any `--`, in order. */
  function Asked(cfg: Config, args: seq<string>): seq<Ask> {
    if args == [] || args[0] == "--" then []
    else
      var token, rest := Classify(args[0]), args[1..];
      AsksOf(token, rest) + Asked(cfg, if Takes(cfg, token, rest) then rest[1..] else rest)
  }

  /** Whether an option as written is refused, and how. */
  function Refusal(cfg: Config, ask: Ask): Outcome {
    if ask.name !in cfg.names then NotExists(ask.name)
    else
      var opt := cfg.names[ask.name];
      if !opt.hasArg then
        if ask.value == "" then Done else TakesNoArgument(ask.name, ask.value)
      else if ask.value != "" || opt.hasImplicit then Done
      else
        match ask.follow
        case Inside => RequiresArgument(ask.name)
        case End => MissingArgument(ask.name)
        case Next(_) => Done
  }

  /**
   The text given to an option: the value written, else the next argument if the option wants one, unless it can do
   without and the argument starts with a hyphen, else none.
   */
  function TextFor(opt: OptionSpec, ask: Ask): string {
    if ask.value != "" then ask.value
    else if ask.follow.Next? && opt.hasArg && !(opt.hasImplicit && "-" <= ask.follow.arg) then ask.follow.arg
    else ""
  }

  function EventOf(cfg: Config, ask: Ask): Event
    requires ask.name in cfg.names
  {
    Event(cfg.names[ask.name], TextFor(cfg.names[ask.name], ask), false)
  }

  // ----- Up to the first refusal -----

  /** The events of what is asked for before the first refusal. */
  function Accepted(cfg: Config, asks: seq<Ask>): seq<Event> {
    if asks == [] || Refusal(cfg, asks[0]) != Done then [] else [EventOf(cfg, asks[0])] + Accepted(cfg, asks[1..])
  }

  function FirstRefusal(cfg: Config, asks: seq<Ask>): Outcome {
    if asks == [] then Done
    else if Refusal(cfg, asks[0]) != Done then Refusal(cfg, asks[0])
    else FirstRefusal(cfg, asks[1..])
  }

  lemma {:induction false} AcceptedConcat(cfg: Config, a: seq<Ask>, b: seq<Ask>)
    ensures FirstRefusal(cfg, a + b)
         == if FirstRefusal(cfg, a) == Done then FirstRefusal(cfg, b) else FirstRefusal(cfg, a)
    ensures Accepted(cfg, a + b)
         == Accepted(cfg, a) + if FirstRefusal(cfg, a) == Done then Accepted(cfg, b) else []
    decreases |a|
  {
    hide Refusal;
    hide EventOf;
    if a == [] {
      assert a + b == b;
      assert [] + Accepted(cfg, b) == Accepted(cfg, b);
    } else {
      assert (a + b)[0] == a[0] && (a + b)[1..] == a[1..] + b;
      AcceptedConcat(cfg, a[1..], b);
    }
  }

  /** What was parsed by flags, in order. */
  function ByFlag(log: seq<Event>): seq<Event> {
    if log == [] then [] else (if log[0].byPosition then [] else [log[0]]) + ByFlag(log[1..])
  }

  lemma {:induction false} ByFlagOne(log: seq<Event>, e: Event)
    ensures ByFlag(log + [e]) == ByFlag(log) + if e.byPosition then [] else [e]
  {
    if log == [] {
      assert log + [e] == [e];
    } else {
      assert (log + [e])[0] == log[0] && (log + [e])[1..] == log[1..] + [e];
      ByFlagOne(log[1..], e);
    }
  }

  // ----- One flag -----

  /** `flag` has done with `asks` what is written: parsed up to the first refusal, and ended with it. */
  ghost predicate Parses(cfg: Config, before: State, after: State, outcome: Outcome, asks: seq<Ask>) {
    outcome == FirstRefusal(cfg, asks) && ByFlag(after.log) == ByFlag(before.log) + Accepted(cfg, asks)
  }

  lemma NoAsks(cfg: Config, st: State)
    ensures Parses(cfg, st, st, Done, [])
  {
  }

  lemma Refused(cfg: Config, st: State, ask: Ask)
    requires Refusal(cfg, ask) != Done
    ensures Parses(cfg, st, st, Refusal(cfg, ask), [ask])
  {
  }

  lemma Feeds(cfg: Config, st: State, ask: Ask)
    requires Refusal(cfg, ask) == Done && cfg.names[ask.name] in st.stores
    ensures var opt := cfg.names[ask.name];
            Parses(cfg, st, Feed(st, opt, TextFor(opt, ask), false), Done, [ask])
  {
    ByFlagOne(st.log, EventOf(cfg, ask));
    assert Accepted(cfg, []) == [] && FirstRefusal(cfg, []) == Done;
  }

  lemma ParsesConcat(cfg: Config, s: State, t: State, u: State, outcome: Outcome, a: seq<Ask>, b: seq<Ask>)
    requires Parses(cfg, s, t, Done, a) && Parses(cfg, t, u, outcome, b)
    ensures Parses(cfg, s, u, outcome, a + b)
  {
    AcceptedConcat(cfg, a, b);
  }

  lemma ParsesNoMore(cfg: Config, s: State, t: State, outcome: Outcome, a: seq<Ask>, b: seq<Ask>)
    requires Parses(cfg, s, t, outcome, a) && outcome != Done
    ensures Parses(cfg, s, t, outcome, a + b)
  {
    AcceptedConcat(cfg, a, b);
  }

  lemma CheckedParses(cfg: Config, st: State, name: string, rest: seq<string>)
    requires Fits(cfg, st) && name in cfg.names && cfg.names[name].hasArg
    ensures var f := CheckedParse(cfg, st, cfg.names[name], name, rest);
            Parses(cfg, st, f.state, f.outcome, [Ask(name, "", After(rest))])
  {
    hide Parses;
    hide Feed;
    var ask := Ask(name, "", After(rest));
    if Refusal(cfg, ask) == Done {
      Feeds(cfg, st, ask);
    } else {
      Refused(cfg, st, ask);
    }
  }

  lemma ClusterAsks(letters: string, rest: seq<string>)
    ensures AsksOf(Cluster([]), rest) == []
    ensures letters != [] ==>
              AsksOf(Cluster(letters), rest) ==
                [Ask([letters[0]], "", if |letters| == 1 then After(rest) else Inside)]
                + AsksOf(Cluster(letters[1..]), rest)
  {
  }

  lemma {:induction false} ClusterParses(cfg: Config, st: State, letters: string, rest: seq<string>)
    requires Fits(cfg, st)
    ensures var f := ParseCluster(cfg, st, letters, rest);
            Parses(cfg, st, f.state, f.outcome, AsksOf(Cluster(letters), rest))
    decreases |letters|
  {
    hide Parses;
    hide Feed;
    hide CheckedParse;
    hide AsksOf;
    ClusterAsks(letters, rest);
    if letters == [] {
      NoAsks(cfg, st);
    } else {
      var name, more := [letters[0]], AsksOf(Cluster(letters[1..]), rest);
      var ask := Ask(name, "", if |letters| == 1 then After(rest) else Inside);
      if Refusal(cfg, ask) != Done && !(|letters| == 1 && name in cfg.names) {
        Refused(cfg, st, ask);
        ParsesNoMore(cfg, st, st, Refusal(cfg, ask), [ask], more);
      } else if |letters| == 1 && cfg.names[name].hasArg {
        CheckedParses(cfg, st, name, rest);
        assert letters[1..] == [];
        assert [ask] + more == [ask];
      } else {
        var t := Feed(st, cfg.names[name], "", false);
        Feeds(cfg, st, ask);
        ClusterParses(cfg, t, letters[1..], rest);
        var f := ParseCluster(cfg, t, letters[1..], rest);
        ParsesConcat(cfg, st, t, f.state, f.outcome, [ask], more);
      }
    }
  }

  lemma LongParses(cfg: Config, st: State, name: string, value: string, rest: seq<string>)
    requires Fits(cfg, st)
    ensures var f := ParseLong(cfg, st, name, value, rest);
            Parses(cfg, st, f.state, f.outcome, AsksOf(Long(name, value), rest))
  {
    hide Parses;
    hide Feed;
    hide CheckedParse;
    var ask := Ask(name, value, After(rest));
    if name in cfg.names && cfg.names[name].hasArg && value == "" {
      CheckedParses(cfg, st, name, rest);
    } else if Refusal(cfg, ask) == Done {
      Feeds(cfg, st, ask);
    } else {
      Refused(cfg, st, ask);
    }
  }

  lemma FlagParses(cfg: Config, st: State, token: Token, rest: seq<string>)
    requires Fits(cfg, st) && !token.Word?
    ensures var f := ParseFlag(cfg, st, token, rest);
            Parses(cfg, st, f.state, f.outcome, AsksOf(token, rest))
  {
    hide Parses;
    hide AsksOf;
    hide ParseCluster;
    hide ParseLong;
    match token
    case Cluster(letters) => ClusterParses(cfg, st, letters, rest);
    case Long(name, value) => LongParses(cfg, st, name, value, rest);
  }

  // ----- The whole run -----

  /** A word is no flag. */
  lemma {:induction false} ConsumeParses(cfg: Config, st: State, a: string)
    requires Fits(cfg, st)
    ensures Parses(cfg, st, Consume(cfg, st, a).state, Done, [])
  {
    hide Parses;
    hide Consume;
    var k := ConsumeTarget(cfg, st, a);
    if k == |cfg.positional| {
      NoFlag(cfg, st, Consume(cfg, st, a).state, []);
    } else {
      NoFlag(cfg, st, Consume(cfg, st, a).state, [Event(cfg.names[cfg.positional[k]], a, true)]);
    }
  }

  lemma NoFlag(cfg: Config, before: State, after: State, words: seq<Event>)
    requires |words| <= 1 && after.log == before.log + words && (words != [] ==> words[0].byPosition)
    ensures Parses(cfg, before, after, Done, [])
  {
    if words != [] {
      ByFlagOne(before.log, words[0]);
      assert words == [words[0]];
    } else {
      assert before.log + words == before.log;
    }
    assert ByFlag(before.log) + [] == ByFlag(before.log);
  }

  lemma {:induction false} LoopParses(cfg: Config, st: State, args: seq<string>)
    requires Fits(cfg, st)
    ensures var r := ParseLoop(cfg, st, args); Parses(cfg, st, r.state, r.outcome, Asked(cfg, args))
    decreases |args|
  {
    hide Parses;
    hide Classify;
    hide Consume;
    hide ParseFlag;
    hide AsksOf;
    hide Takes;
    NoAsks(cfg, st);
    if args != [] && args[0] != "--" {
      var token, rest := Classify(args[0]), args[1..];
      var more := Asked(cfg, if Takes(cfg, token, rest) then rest[1..] else rest);
      if token.Word? {
        var t := Consume(cfg, st, args[0]).state;
        WordTakesNothing(cfg, rest);
        NoAsksOfWord(rest);
        ConsumeParses(cfg, st, args[0]);
        LoopParses(cfg, t, rest);
        var r := ParseLoop(cfg, t, rest);
        ParsesConcat(cfg, st, t, r.state, r.outcome, [], more);
      } else {
        var f := ParseFlag(cfg, st, token, rest);
        FlagParses(cfg, st, token, rest);
        if f.outcome != Done {
          ParsesNoMore(cfg, st, f.state, f.outcome, AsksOf(token, rest), more);
        } else {
          FlagTakes(cfg, st, token, rest);
          assert f.tookNext ==> rest[1..] == args[2..];
          LoopParses(cfg, f.state, args[if f.tookNext then 2 else 1..]);
          var r := ParseLoop(cfg, f.state, args[if f.tookNext then 2 else 1..]);
          ParsesConcat(cfg, st, f.state, r.state, r.outcome, AsksOf(token, rest), more);
        }
      }
    }
  }

  lemma NoAsksOfWord(rest: seq<string>)
    ensures AsksOf(Word, rest) == []
  {
  }

  lemma {:induction false} RemainingParses(cfg: Config, st: State, args: seq<string>)
    requires Fits(cfg, st)
    ensures Parses(cfg, st, ConsumeAll(cfg, st, args), Done, [])
    decreases |args|
  {
    hide Parses;
    hide Consume;
    NoAsks(cfg, st);
    if args != [] {
      var t, none: seq<Ask> := Consume(cfg, st, args[0]).state, [];
      assert none + none == none;
      ConsumeParses(cfg, st, args[0]);
      RemainingParses(cfg, t, args[1..]);
      ParsesConcat(cfg, st, t, ConsumeAll(cfg, t, args[1..]), Done, [], []);
    }
  }

  lemma {:induction false} AcceptedAt(cfg: Config, asks: seq<Ask>)
    ensures var n := |Accepted(cfg, asks)|;
            && n <= |asks|
            && (forall i :: 0 <= i < n ==>
                  Refusal(cfg, asks[i]) == Done && Accepted(cfg, asks)[i] == EventOf(cfg, asks[i]))
            && (if n == |asks| then FirstRefusal(cfg, asks) == Done
                else FirstRefusal(cfg, asks) == Refusal(cfg, asks[n]) != Done)
  {
    hide Refusal;
    hide EventOf;
    if asks != [] && Refusal(cfg, asks[0]) == Done {
      AcceptedAt(cfg, asks[1..]);
    }
  }

  /**
   Every run parses by flags exactly what is written, in order, up to the first option that is refused, and fails with
   that refusal; a run in which none is refused does not fail.
   */
  lemma FlagsAreParsed(cfg: Config, st: State, args: seq<string>)
    requires Fits(cfg, st) && st.log == []
    ensures var r, asks := Parse(cfg, st, args), Asked(cfg, args);
            var events := ByFlag(r.state.log);
            var n := |events|;
            && n <= |asks|
            && (forall i :: 0 <= i < n ==> Refusal(cfg, asks[i]) == Done && events[i] == EventOf(cfg, asks[i]))
            && (if n == |asks| then r.outcome == Done else r.outcome == Refusal(cfg, asks[n]) != Done)
  {
    hide ParseLoop;
    hide ConsumeAll;
    hide WithDefaults;
    hide Asked;
    hide Refusal;
    hide EventOf;
    var loop, asks := ParseLoop(cfg, st, args), Asked(cfg, args);
    LoopParses(cfg, st, args);
    AcceptedAt(cfg, asks);
    assert [] + Accepted(cfg, asks) == Accepted(cfg, asks);
    if loop.outcome == Done {
      var t := loop.state.(stores := WithDefaults(cfg, loop.state.stores));
      RemainingParses(cfg, t, loop.remaining);
      assert ByFlag(t.log) + [] == ByFlag(t.log);
    }
  }
}
