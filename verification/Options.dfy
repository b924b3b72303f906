/** `Options` and `OptionDetails` of `include/cxxopts.hpp`: in-place parsing of argv. */
module Options {
  import opened ArgSpec

  class OptionDetails {
    const spec: OptionSpec
    var count: nat
    var values: seq<string>

    constructor (spec: OptionSpec)
      ensures this.spec == spec && Contents() == Store(0, [])
    {
      this.spec, count, values := spec, 0, [];
    }

    function Contents(): Store
      reads this
    {
      Store(count, values)
    }

    method Parse(text: string)
      modifies this
      ensures Contents() == Parsed(spec, old(Contents()), text)
    {
      values := Put(spec, values, Effective(spec, text));
      count := count + 1;
    }

    /** Does not count. */
    method ParseDefault()
      modifies this`values
      ensures values == Put(spec, old(values), spec.defaultValue)
    {
      values := Put(spec, values, spec.defaultValue);
    }
  }

  /** Distinct option objects have distinct specifications. */
  predicate Distinct(options: map<string, OptionDetails>) {
    forall m, n :: m in options && n in options && options[m].spec == options[n].spec ==> options[m] == options[n]
  }

  function Specs(options: map<string, OptionDetails>): map<string, OptionSpec> {
    map n | n in options :: options[n].spec
  }

  /** What every option object holds. */
  ghost function Stores(options: map<string, OptionDetails>): (m: map<OptionSpec, Store>)
    requires Distinct(options)
    reads options.Values
    ensures m.Keys == Specs(options).Values
  {
    var m := map n | n in options :: options[n].spec := options[n].Contents();
    assert forall o :: o in m ==> exists n :: n in options && Specs(options)[n] == o;
    assert forall o :: o in Specs(options).Values ==> exists n :: n in options && options[n].spec == o;
    m
  }

  lemma StoreOf(options: map<string, OptionDetails>, name: string)
    requires Distinct(options) && name in options
    ensures options[name].spec in Stores(options)
    ensures Stores(options)[options[name].spec] == options[name].Contents()
  {
  }

  /** `m` says what every option object holds. */
  lemma StoresAre(options: map<string, OptionDetails>, m: map<OptionSpec, Store>)
    requires Distinct(options) && m.Keys == Specs(options).Values
    requires forall n :: n in options ==> options[n].spec in m && m[options[n].spec] == options[n].Contents()
    ensures Stores(options) == m
  {
    forall o | o in m ensures Stores(options)[o] == m[o] {
      var n :| n in options && Specs(options)[n] == o;
      StoreOf(options, n);
    }
  }

  class Options {
    const options: map<string, OptionDetails>
    const positional: seq<string>
    var nextPositional: nat
    ghost var log: seq<Event>

    ghost predicate Valid()
      reads this
    {
      Distinct(options) && nextPositional <= |positional|
    }

    constructor (options: map<string, OptionDetails>, positional: seq<string>)
      requires Distinct(options)
      ensures Valid() && this.options == options && this.positional == positional && nextPositional == 0 && log == []
    {
      this.options, this.positional, nextPositional, log := options, positional, 0, [];
    }

    function Cfg(): Config {
      Config(Specs(options), positional)
    }

    ghost function Abs(): (st: State)
      requires Valid()
      reads this, options.Values
      ensures Fits(Cfg(), st)
    {
      State(Stores(options), nextPositional, log)
    }

    /** `parse_option` on the option of a registered name. */
    method ParseOption(name: string, text: string, ghost byPosition: bool)
      requires Valid() && name in options
      modifies this`log, options[name]
      ensures Valid() && Abs() == Feed(old(Abs()), options[name].spec, text, byPosition)
    {
      hide Stores;
      hide Parsed;
      ghost var opt := options[name].spec;
      ghost var before := Stores(options);
      forall n | n in options {
        StoreOf(options, n);
      }
      options[name].Parse(text);
      log := log + [Event(opt, text, byPosition)];
      StoresAre(options, before[opt := options[name].Contents()]);
    }

    method ConsumePositional(a: string) returns (consumed: bool)
      requires Valid()
      modifies this`nextPositional, this`log, options.Values
      ensures Valid() && Consumption(Abs(), consumed) == Consume(Cfg(), old(Abs()), a)
    {
      hide Stores;
      hide Feed;
      hide Consume;
      while nextPositional != |positional|
        invariant Valid()
        invariant Consume(Cfg(), Abs(), a) == Consume(Cfg(), old(Abs()), a)
        decreases |positional| - nextPositional
      {
        ConsumeRound(Cfg(), Abs(), a);
        var name := positional[nextPositional];
        if name in options {
          StoreOf(options, name);
          if !options[name].spec.isContainer {
            if options[name].count == 0 {
              ParseOption(name, a, true);
              nextPositional := nextPositional + 1;
              return true;
            } else {
              nextPositional := nextPositional + 1;
              continue;
            }
          } else {
            ParseOption(name, a, true);
            return true;
          }
        }
        nextPositional := nextPositional + 1;
      }
      ConsumeRound(Cfg(), Abs(), a);
      return false;
    }

    /** `checked_parse_arg`: may move on to the next argument, which is never past the last one. */
    method CheckedParseArg(argv: array<string>, argc: nat, current: nat, name: string)
      returns (next: nat, outcome: Outcome)
      requires Valid() && name in options && current < argc <= argv.Length
      modifies this`log, options[name]
      ensures Valid() && current <= next <= current + 1 && next < argc
      ensures Flagged(Abs(), next > current, outcome)
           == CheckedParse(Cfg(), old(Abs()), options[name].spec, name, argv[current + 1..argc])
    {
      next, outcome := current, Done;
      ghost var rest := argv[current + 1..argc];
      if current + 1 >= argc {
        if options[name].spec.hasImplicit {
          ParseOption(name, "", false);
        } else {
          outcome := MissingArgument(name);
        }
      } else {
        assert rest[0] == argv[current + 1];
        if "-" <= argv[current + 1] && options[name].spec.hasImplicit {
          ParseOption(name, "", false);
        } else {
          ParseOption(name, argv[current + 1], false);
          next := current + 1;
        }
      }
    }

    /** A cluster of short options: only its last letter may take the next argument. */
    method ParseClusterArg(argv: array<string>, argc: nat, current: nat, letters: string)
      returns (next: nat, outcome: Outcome)
      requires Valid() && current < argc <= argv.Length
      modifies this`log, options.Values
      ensures Valid() && current <= next <= current + 1 && next < argc
      ensures Flagged(Abs(), next > current, outcome)
           == ParseCluster(Cfg(), old(Abs()), letters, argv[current + 1..argc])
    {
      hide Stores;
      hide Feed;
      hide CheckedParse;
      next, outcome := current, Done;
      ghost var rest := argv[current + 1..argc];
      ghost var all := ParseCluster(Cfg(), Abs(), letters, rest);
      var i := 0;
      while i < |letters|
        invariant 0 <= i <= |letters| && Valid() && outcome == Done
        invariant next == current || (next == current + 1 < argc && i == |letters|)
        invariant if next == current then ParseCluster(Cfg(), Abs(), letters[i..], rest) == all
                  else Flagged(Abs(), true, Done) == all
      {
        var name := [letters[i]];
        assert letters[i..][0] == letters[i] && letters[i..][1..] == letters[i + 1..];
        if name !in options {
          outcome := NotExists(name);
          return;
        }
        if !options[name].spec.hasArg {
          ParseOption(name, "", false);
        } else if i + 1 == |letters| {
          next, outcome := CheckedParseArg(argv, argc, current, name);
          if outcome != Done || next > current {
            return;
          }
        } else if options[name].spec.hasImplicit {
          ParseOption(name, "", false);
        } else {
          outcome := RequiresArgument(name);
          return;
        }
        i := i + 1;
      }
      assert letters[i..] == [];
    }

    /** The flag branch of the argument loop. */
    method ParseFlagArg(argv: array<string>, argc: nat, current: nat, token: Token)
      returns (next: nat, outcome: Outcome)
      requires Valid() && current < argc <= argv.Length && !token.Word?
      modifies this`log, options.Values
      ensures Valid() && current <= next <= current + 1 && next < argc
      ensures Flagged(Abs(), next > current, outcome)
           == ParseFlag(Cfg(), old(Abs()), token, argv[current + 1..argc])
    {
      hide Stores;
      hide Feed;
      hide CheckedParse;
      hide ParseCluster;
      next, outcome := current, Done;
      match token
      case Cluster(letters) =>
        next, outcome := ParseClusterArg(argv, argc, current, letters);
      case Long(name, value) =>
        if name !in options {
          outcome := NotExists(name);
        } else if |value| != 0 {
          if !options[name].spec.hasArg {
            outcome := TakesNoArgument(name, value);
          } else {
            ParseOption(name, value, false);
          }
        } else if options[name].spec.hasArg {
          next, outcome := CheckedParseArg(argv, argc, current, name);
        } else {
          ParseOption(name, "", false);
        }
    }

    /** One round of the default loop. */
    method ApplyDefault(name: string)
      requires Valid() && name in options
      modifies options[name]
      ensures Stores(options)
           == old(Stores(options))[options[name].spec := OneDefault(options[name].spec, old(options[name].Contents()))]
    {
      hide Stores;
      hide Put;
      var d := options[name];
      ghost var before := Stores(options);
      forall n | n in options {
        StoreOf(options, n);
      }
      if d.count == 0 && d.spec.hasDefault {
        d.ParseDefault();
      }
      StoresAre(options, before[d.spec := d.Contents()]);
    }

    /** The loop over `m_options` that applies defaults; its order does not matter. */
    method ApplyDefaults()
      requires Valid()
      modifies options.Values
      ensures Valid() && Stores(options) == WithDefaults(Cfg(), old(Stores(options)))
    {
      hide Stores;
      hide DefaultedFor;
      hide OneDefault;
      hide WithDefaults;
      ghost var before, names := Stores(options), Specs(options);
      var todo := options.Keys;
      ghost var done: set<string> := {};
      NoDefaults(names, before);
      while todo != {}
        invariant todo + done == options.Keys && todo !! done
        invariant Stores(options) == DefaultedFor(names, before, done)
        decreases todo
      {
        var name :| name in todo;
        StoreOf(options, name);
        DefaultRound(names, before, done, name);
        ApplyDefault(name);
        todo := todo - {name};
        done := done + {name};
      }
      AllDefaults(Cfg(), before, done);
    }

    /** One round of the argument loop: where the next one starts, and whether argv keeps the argument. */
    method ParseArgument(argv: array<string>, argc: nat, current: nat)
      returns (outcome: Outcome, next: nat, keep: bool)
      requires Valid() && current < argc <= argv.Length && argv[current] != "--"
      modifies this`nextPositional, this`log, options.Values
      ensures Valid() && current < next <= argc
      ensures outcome == Done ==>
                ParseLoop(Cfg(), old(Abs()), argv[current..argc]) ==
                  Keeping(if keep then [argv[current]] else [], ParseLoop(Cfg(), Abs(), argv[next..argc]))
      ensures outcome != Done ==>
                ParseLoop(Cfg(), old(Abs()), argv[current..argc]) == LoopResult(Abs(), [], outcome, [])
    {
      hide ParseLoop;
      hide ParseFlag;
      hide Stores;
      hide Consume;
      hide Classify;
      ghost var here := argv[current..argc];
      assert here[0] == argv[current] && here[1..] == argv[current + 1..argc];
      LoopStep(Cfg(), Abs(), here);
      outcome, next, keep := Done, current, false;
      var token := Classify(argv[current]);
      if token.Word? {
        var consumed := ConsumePositional(argv[current]);
        keep := !consumed;
      } else {
        next, outcome := ParseFlagArg(argv, argc, current, token);
        assert next > current ==> here[2..] == argv[next + 1..argc];
      }
      next := next + 1;
    }

    /** The argument loop: where it stops, what it keeps, and whether a `--` ended it. */
    method ParseArguments(argv: array<string>, argc: nat)
      returns (outcome: Outcome, current: nat, nextKeep: nat, consumeRemaining: bool)
      requires Valid() && 1 <= argc <= argv.Length
      modifies this`nextPositional, this`log, options.Values, argv
      ensures Valid() && 1 <= nextKeep <= current <= argc
      ensures ParseLoop(Cfg(), old(Abs()), old(argv[1..argc]))
           == LoopResult(Abs(), argv[1..nextKeep], outcome,
                         if consumeRemaining then argv[current..argc] else [])
      ensures argv[0] == old(argv[0]) && argv[nextKeep..] == old(argv[nextKeep..])
    {
      hide ParseLoop;
      hide Stores;
      hide Specs;
      ghost var args := argv[..];
      ghost var all := ParseLoop(Cfg(), Abs(), args[1..argc]);
      current, nextKeep, consumeRemaining, outcome := 1, 1, false, Done;
      KeepingNothing(all);
      while current != argc
        invariant 1 <= nextKeep <= current <= argc
        invariant Valid() && !consumeRemaining && outcome == Done
        invariant argv[0] == args[0] && argv[nextKeep..] == args[nextKeep..]
        invariant all == Keeping(argv[1..nextKeep], ParseLoop(Cfg(), Abs(), args[current..argc]))
        decreases argc - current
      {
        assert argv[current] == args[current..argc][0];
        assert argv[current..argc] == args[current..argc];
        if argv[current] == "--" {
          LoopStep(Cfg(), Abs(), args[current..argc]);
          consumeRemaining := true;
          current := current + 1;
          assert args[current - 1..argc][1..] == argv[current..argc];
          break;
        }
        var result, next, keep := ParseArgument(argv, argc, current);
        if result != Done {
          outcome, current := result, next;
          return;
        }
        assert argv[next..argc] == args[next..argc];
        ghost var kept, more := argv[1..nextKeep], ParseLoop(Cfg(), Abs(), args[next..argc]);
        KeepingTwice(kept, if keep then [argv[current]] else [], more);
        if keep {
          argv[nextKeep] := argv[current];
          nextKeep := nextKeep + 1;
          assert argv[1..nextKeep] == kept + [args[current]];
        }
        current := next;
      }
      LoopEnds(Cfg(), Abs());
      assert args[argc..argc] == [];
    }

    /**
     `parse`: compacts argv in place. Arguments not yet read are never overwritten because `nextKeep` stays at or
     below `current`; on an error argc keeps its value.
     */
    method Parse(argv: array<string>, argc: nat) returns (outcome: Outcome, newArgc: nat)
      requires Valid() && 1 <= argc <= argv.Length
      modifies this`nextPositional, this`log, options.Values, argv
      ensures var r := ArgSpec.Parse(Cfg(), old(Abs()), old(argv[1..argc]));
              && Valid() && Abs() == r.state && outcome == r.outcome
              && newArgc == (if r.outcome == Done then 1 + |r.kept| else argc)
              && 1 + |r.kept| <= argc
              && argv[0] == old(argv[0]) && argv[1..1 + |r.kept|] == r.kept
              && argv[1 + |r.kept|..] == old(argv[..])[1 + |r.kept|..]
    {
      hide ParseLoop;
      hide Stores;
      hide Consume;
      hide WithDefaults;
      var current, nextKeep, consumeRemaining;
      outcome, current, nextKeep, consumeRemaining := ParseArguments(argv, argc);
      newArgc := argc;
      if outcome == Done {
        ApplyDefaults();
        if consumeRemaining {
          ConsumeRemaining(argv, argc, current);
        }
        newArgc := nextKeep;
      }
    }

    /** The loop over the arguments after `--`; those that no positional takes are dropped. */
    method ConsumeRemaining(argv: array<string>, argc: nat, start: nat)
      requires Valid() && start <= argc <= argv.Length
      modifies this`nextPositional, this`log, options.Values
      ensures Valid() && Abs() == ConsumeAll(Cfg(), old(Abs()), argv[start..argc])
    {
      hide Stores;
      hide Consume;
      ghost var rest := argv[start..argc];
      var current := start;
      while current < argc
        invariant start <= current <= argc && Valid()
        invariant ConsumeAll(Cfg(), Abs(), rest[current - start..]) == ConsumeAll(Cfg(), old(Abs()), rest)
      {
        assert rest[current - start..][0] == argv[current];
        assert rest[current - start..][1..] == rest[current + 1 - start..];
        var ignored := ConsumePositional(argv[current]);
        current := current + 1;
      }
      assert rest[current - start..] == [];
    }
  }

  /** One round of the argument loop, on what is left of the arguments. */
  lemma LoopStep(cfg: Config, st: State, here: seq<string>)
    requires Fits(cfg, st) && here != []
    ensures here[0] == "--" ==> ParseLoop(cfg, st, here) == LoopResult(st, [], Done, here[1..])
    ensures here[0] != "--" && Classify(here[0]).Word? ==>
              var c := Consume(cfg, st, here[0]);
              ParseLoop(cfg, st, here) ==
                Keeping(if c.consumed then [] else [here[0]], ParseLoop(cfg, c.state, here[1..]))
    ensures here[0] != "--" && !Classify(here[0]).Word? ==>
              var f := ParseFlag(cfg, st, Classify(here[0]), here[1..]);
              ParseLoop(cfg, st, here) ==
                if f.outcome != Done then LoopResult(f.state, [], f.outcome, [])
                else Keeping([], ParseLoop(cfg, f.state, here[if f.tookNext then 2 else 1..]))
  {
    forall r: LoopResult ensures Keeping([], r) == r {
      KeepingNothing(r);
    }
    hide Classify;
    hide Consume;
    hide ParseFlag;
  }

  lemma LoopEnds(cfg: Config, st: State)
    requires Fits(cfg, st)
    ensures ParseLoop(cfg, st, []) == LoopResult(st, [], Done, [])
  {
  }

  /** A result with `kept` in front of what it keeps. */
  function Keeping(kept: seq<string>, r: LoopResult): LoopResult {
    r.(kept := kept + r.kept)
  }

  lemma KeepingNothing(r: LoopResult)
    ensures Keeping([], r) == r
  {
    assert [] + r.kept == r.kept;
  }

  lemma KeepingTwice(a: seq<string>, b: seq<string>, r: LoopResult)
    ensures Keeping(a, Keeping(b, r)) == Keeping(a + b, r)
    ensures b == [] ==> Keeping(a, Keeping(b, r)) == Keeping(a, r)
  {
    assert a + (b + r.kept) == a + b + r.kept;
    assert b == [] ==> a + b == a;
  }

  function OneDefault(opt: OptionSpec, store: Store): Store {
    if store.count == 0 && opt.hasDefault then Store(0, Put(opt, store.values, opt.defaultValue)) else store
  }

  /** The stores once the default loop has visited the names `done`. */
  function DefaultedFor(names: map<string, OptionSpec>, before: map<OptionSpec, Store>, done: set<string>)
    : (m: map<OptionSpec, Store>)
    ensures m.Keys == before.Keys
  {
    map o | o in before :: Defaulted(o, before[o], |NamesOf(names, o) * done|)
  }

  lemma NoDefaults(names: map<string, OptionSpec>, before: map<OptionSpec, Store>)
    ensures DefaultedFor(names, before, {}) == before
  {
    forall o | o in before ensures |NamesOf(names, o) * {}| == 0 {
      assert NamesOf(names, o) * {} == {};
    }
  }

  lemma AllDefaults(cfg: Config, before: map<OptionSpec, Store>, done: set<string>)
    requires done == cfg.names.Keys
    ensures DefaultedFor(cfg.names, before, done) == WithDefaults(cfg, before)
  {
    forall o | o in before ensures NamesOf(cfg.names, o) * done == NamesOf(cfg.names, o) {
    }
  }

  lemma DefaultRound(names: map<string, OptionSpec>, before: map<OptionSpec, Store>, done: set<string>, name: string)
    requires name in names && name !in done && names[name] in before
    ensures var opt, m := names[name], DefaultedFor(names, before, done);
            DefaultedFor(names, before, done + {name}) == m[opt := OneDefault(opt, m[opt])]
  {
    var opt := names[name];
    DefaultStep(names, opt, name, done);
    DefaultedKeepsCount(opt, before[opt], |NamesOf(names, opt) * done|);
  }

  lemma DefaultStep(names: map<string, OptionSpec>, opt: OptionSpec, name: string, done: set<string>)
    requires name in names && names[name] == opt && name !in done
    ensures |NamesOf(names, opt) * (done + {name})| == |NamesOf(names, opt) * done| + 1
    ensures forall o :: o != opt ==> NamesOf(names, o) * (done + {name}) == NamesOf(names, o) * done
  {
    assert NamesOf(names, opt) * (done + {name}) == NamesOf(names, opt) * done + {name};
  }

  /** One round of the positional loop. */
  lemma ConsumeRound(cfg: Config, st: State, a: string)
    requires Fits(cfg, st)
    ensures st.next == |cfg.positional| ==> Consume(cfg, st, a) == Consumption(st, false)
    ensures st.next < |cfg.positional| ==>
              var name, skipped := cfg.positional[st.next], st.(next := st.next + 1);
              if name !in cfg.names || (!cfg.names[name].isContainer && st.stores[cfg.names[name]].count != 0) then
                Consume(cfg, st, a) == Consume(cfg, skipped, a)
              else
                var fed := Feed(st, cfg.names[name], a, true);
                var moved := if cfg.names[name].isContainer then fed else fed.(next := st.next + 1);
                Consume(cfg, st, a) == Consumption(moved, true)
  {
  }
}
