/** What argument parsing promises over whole runs. */
module ArgTheorems {
  import opened ArgSpec

  // ----- Tokens -----

  /** A digit or a letter of either case, by its code. */
  predicate LetterOrDigit(c: char) {
    var code := c as int;
    48 <= code <= 57 || 65 <= code <= 90 || 97 <= code <= 122
  }

  /** At least two characters: a letter or digit, then letters, digits, hyphens (code 45) and underscores (code 95). */
  predicate IsLongName(name: string) {
    && |name| >= 2 && LetterOrDigit(name[0])
    && forall i :: 0 <= i < |name| ==> LetterOrDigit(name[i]) || name[i] as int in {45, 95}
  }

  lemma {:induction false} NameEndChars(s: string, i: nat)
    requires i <= |s|
    ensures var e := NameEnd(s, i);
            (forall k :: i <= k < e ==> IsNameChar(s[k])) && (e < |s| ==> !IsNameChar(s[e]))
    decreases |s| - i
  {
    if i < |s| && IsNameChar(s[i]) {
      NameEndChars(s, i + 1);
    }
  }

  predicate IsLetters(letters: string) {
    letters != [] && forall i :: 0 <= i < |letters| ==> LetterOrDigit(letters[i])
  }

  /** Text without a line break: what `.*` matches. */
  predicate OnOneLine(text: string) {
    '\n' !in text && '\r' !in text
  }

  /** The written forms of a long option, without and with a value. */
  predicate WritesLong(s: string, name: string, value: string) {
    IsLongName(name) && ((s == "--" + name && value == "") || (s == "--" + name + "=" + value && OnOneLine(value)))
  }

  lemma ClassifiedForm(s: string)
    ensures match Classify(s)
            case Word => true
            case Cluster(letters) => s == "-" + letters && IsLetters(letters)
            case Long(name, value) => WritesLong(s, name, value)
  {
    if "--" <= s {
      var e := NameEnd(s, 2);
      NameEndChars(s, 2);
      assert s == "--" + s[2..e] + s[e..];
      if e < |s| {
        assert s[e..] == [s[e]] + s[e + 1..];
      }
    } else if "-" < s {
      assert s == "-" + s[1..];
    }
  }

  lemma {:induction false} NameEndIs(s: string, i: nat, e: nat)
    requires i <= e <= |s| && forall k :: i <= k < e ==> IsNameChar(s[k])
    requires e < |s| ==> !IsNameChar(s[e])
    ensures NameEnd(s, i) == e
    decreases e - i
  {
    if i < e {
      NameEndIs(s, i + 1, e);
    }
  }

  lemma LongIsRead(s: string, name: string, value: string)
    requires WritesLong(s, name, value)
    ensures Classify(s) == Long(name, value)
  {
    var e := 2 + |name|;
    assert s[..e] == "--" + name;
    assert forall k :: 2 <= k < e ==> s[k] == s[..e][k] == name[k - 2];
    NameEndIs(s, 2, e);
    assert s[2..e] == name;
    if e < |s| {
      assert s[e + 1..] == value;
    }
  }

  lemma ClusterIsRead(letters: string)
    requires IsLetters(letters)
    ensures Classify("-" + letters) == Cluster(letters)
  {
    var s := "-" + letters;
    assert s[1] == letters[0];
    assert s[1..] == letters;
  }

  /**
   Flags are exactly the strings of their written form, and each is read as what it writes; everything else is a word.
   */
  lemma TokenForm(s: string, letters: string, name: string, value: string)
    ensures Classify(s) == Cluster(letters) <==> s == "-" + letters && IsLetters(letters)
    ensures Classify(s) == Long(name, value) <==> WritesLong(s, name, value)
  {
    ClassifiedForm(s);
    if s == "-" + letters && IsLetters(letters) {
      ClusterIsRead(letters);
    }
    if WritesLong(s, name, value) {
      LongIsRead(s, name, value);
    }
  }

  // ----- Which arguments are words -----

  predicate TakesNext(opt: OptionSpec, rest: seq<string>) {
    opt.hasArg && rest != [] && !("-" <= rest[0] && opt.hasImplicit)
  }

  predicate LastTakes(cfg: Config, letters: string, rest: seq<string>): (takes: bool)
    ensures takes ==> rest != []
  {
    letters != [] &&
      if |letters| == 1 then [letters[0]] in cfg.names && TakesNext(cfg.names[[letters[0]]], rest)
      else LastTakes(cfg, letters[1..], rest)
  }

  /** The option that may take the next argument: the last of a cluster, or a long one without a value. */
  predicate Takes(cfg: Config, token: Token, rest: seq<string>): (takes: bool)
    ensures takes ==> rest != []
  {
    match token
    case Word => false
    case Cluster(letters) => LastTakes(cfg, letters, rest)
    case Long(name, value) => value == "" && name in cfg.names && TakesNext(cfg.names[name], rest)
  }

  /** The arguments before any `--` that are neither flags nor taken by one, from the registrations alone. */
  function Words(cfg: Config, args: seq<string>): seq<string> {
    if args == [] || args[0] == "--" then []
    else if Classify(args[0]).Word? then [args[0]] + Words(cfg, args[1..])
    else if Takes(cfg, Classify(args[0]), args[1..]) then Words(cfg, args[2..])
    else Words(cfg, args[1..])
  }

  /** The arguments after the first `--` that no flag takes. */
  function AfterDashes(cfg: Config, args: seq<string>): seq<string> {
    if args == [] then []
    else if args[0] == "--" then args[1..]
    else if Takes(cfg, Classify(args[0]), args[1..]) then AfterDashes(cfg, args[2..])
    else AfterDashes(cfg, args[1..])
  }

  lemma CheckedTakes(cfg: Config, st: State, opt: OptionSpec, name: string, rest: seq<string>)
    requires Fits(cfg, st) && opt in st.stores && opt.hasArg
    requires CheckedParse(cfg, st, opt, name, rest).outcome == Done
    ensures CheckedParse(cfg, st, opt, name, rest).tookNext <==> TakesNext(opt, rest)
  {
    hide Feed;
  }

  lemma {:induction false} ClusterTakes(cfg: Config, st: State, letters: string, rest: seq<string>)
    requires Fits(cfg, st) && ParseCluster(cfg, st, letters, rest).outcome == Done
    ensures ParseCluster(cfg, st, letters, rest).tookNext <==> LastTakes(cfg, letters, rest)
    decreases |letters|
  {
    hide Feed;
    hide CheckedParse;
    hide TakesNext;
    if letters != [] {
      var name := [letters[0]];
      var opt := cfg.names[name];
      if |letters| == 1 {
        if opt.hasArg {
          CheckedTakes(cfg, st, opt, name, rest);
        } else {
          ClusterOfNone(cfg, Feed(st, opt, "", false), letters[1..], rest);
          NeverTakes(opt, rest);
        }
      } else {
        ClusterTakes(cfg, Feed(st, opt, "", false), letters[1..], rest);
      }
    }
  }

  lemma ClusterOfNone(cfg: Config, st: State, letters: string, rest: seq<string>)
    requires Fits(cfg, st) && letters == []
    ensures !ParseCluster(cfg, st, letters, rest).tookNext
  {
  }

  lemma NeverTakes(opt: OptionSpec, rest: seq<string>)
    requires !opt.hasArg
    ensures !TakesNext(opt, rest)
  {
  }

  lemma FlagTakes(cfg: Config, st: State, token: Token, rest: seq<string>)
    requires Fits(cfg, st) && !token.Word? && ParseFlag(cfg, st, token, rest).outcome == Done
    ensures ParseFlag(cfg, st, token, rest).tookNext <==> Takes(cfg, token, rest)
  {
    if token.Cluster? {
      ClusterTakes(cfg, st, token.letters, rest);
    }
  }

  // ----- The positional part of the log -----

  /** What was parsed by position, in order. */
  function ByPosition(log: seq<Event>): seq<Event> {
    if log == [] then [] else (if log[0].byPosition then [log[0]] else []) + ByPosition(log[1..])
  }

  function Texts(log: seq<Event>): (texts: seq<string>)
    ensures |texts| == |log|
  {
    seq(|log|, i requires 0 <= i < |log| => log[i].text)
  }

  /** The texts parsed by position, in order. */
  function PositionalTexts(log: seq<Event>): seq<string> {
    Texts(ByPosition(log))
  }

  lemma {:induction false} ByPositionConcat(a: seq<Event>, b: seq<Event>)
    ensures ByPosition(a + b) == ByPosition(a) + ByPosition(b)
  {
    if a == [] {
      assert a + b == b;
    } else {
      ByPositionConcat(a[1..], b);
      assert (a + b)[0] == a[0] && (a + b)[1..] == a[1..] + b;
      var first, x, y := if a[0].byPosition then [a[0]] else [], ByPosition(a[1..]), ByPosition(b);
      assert first + (x + y) == first + x + y;
    }
  }

  lemma ByPositionOne(log: seq<Event>, e: Event)
    ensures ByPosition(log + [e]) == ByPosition(log) + if e.byPosition then [e] else []
  {
    ByPositionConcat(log, [e]);
    assert ByPosition([e]) == (if e.byPosition then [e] else []) + ByPosition([]);
  }

  /** The cursor stands at the name of the registered container `opt`. */
  predicate AtContainer(cfg: Config, next: nat, opt: OptionSpec) {
    && next < |cfg.positional| && cfg.positional[next] in cfg.names && cfg.names[cfg.positional[next]] == opt
    && opt.isContainer
  }

  /** A word goes to one option, the container at the cursor if there is one; or the cursor is at its end. */
  lemma {:induction false} ConsumeLogs(cfg: Config, st: State, a: string) returns (opt: OptionSpec)
    requires Fits(cfg, st)
    ensures var c := Consume(cfg, st, a);
            if c.consumed then ByPosition(c.state.log) == ByPosition(st.log) + [Event(opt, a, true)]
            else ByPosition(c.state.log) == ByPosition(st.log) && c.state.next == |cfg.positional|
    ensures forall o :: AtContainer(cfg, st.next, o) ==>
              Consume(cfg, st, a).consumed && opt == o && Consume(cfg, st, a).state.next == st.next
    decreases |cfg.positional| - st.next
  {
    opt := OptionSpec(0, false, false, false, "", false, "");
    if st.next < |cfg.positional| {
      var name, skipped := cfg.positional[st.next], st.(next := st.next + 1);
      if name in cfg.names && (cfg.names[name].isContainer || st.stores[cfg.names[name]].count == 0) {
        opt := cfg.names[name];
        ByPositionOne(st.log, Event(opt, a, true));
      } else {
        opt := ConsumeLogs(cfg, skipped, a);
      }
    }
  }

  lemma {:induction false} ClusterLogs(cfg: Config, st: State, letters: string, rest: seq<string>)
    requires Fits(cfg, st)
    ensures ByPosition(ParseCluster(cfg, st, letters, rest).state.log) == ByPosition(st.log)
    decreases |letters|
  {
    if letters != [] && [letters[0]] in cfg.names {
      var opt := cfg.names[[letters[0]]];
      ByPositionOne(st.log, Event(opt, "", false));
      if rest != [] {
        ByPositionOne(st.log, Event(opt, rest[0], false));
      }
      ClusterLogs(cfg, Feed(st, opt, "", false), letters[1..], rest);
    }
  }

  /** Flags parse nothing by position. */
  lemma FlagLogs(cfg: Config, st: State, token: Token, rest: seq<string>)
    requires Fits(cfg, st) && !token.Word?
    ensures ByPosition(ParseFlag(cfg, st, token, rest).state.log) == ByPosition(st.log)
  {
    hide ByPosition;
    if token.Cluster? {
      ClusterLogs(cfg, st, token.letters, rest);
    } else if token.name in cfg.names {
      var opt := cfg.names[token.name];
      ByPositionOne(st.log, Event(opt, "", false));
      ByPositionOne(st.log, Event(opt, token.value, false));
      if rest != [] {
        ByPositionOne(st.log, Event(opt, rest[0], false));
      }
    }
  }

  // ----- Which positional arguments are taken, kept and dropped -----

  /** Once the cursor is at its end, every word is kept. */
  lemma {:induction false} LoopAtEnd(cfg: Config, st: State, args: seq<string>)
    requires Fits(cfg, st) && st.next == |cfg.positional| && ParseLoop(cfg, st, args).outcome == Done
    ensures ByPosition(ParseLoop(cfg, st, args).state.log) == ByPosition(st.log)
    ensures ParseLoop(cfg, st, args).kept == Words(cfg, args)
    decreases |args|
  {
    hide Classify;
    hide ParseFlag;
    hide Takes;
    if args != [] && args[0] != "--" {
      var token := Classify(args[0]);
      if token.Word? {
        LoopAtEnd(cfg, st, args[1..]);
      } else {
        var f := ParseFlag(cfg, st, token, args[1..]);
        FlagLogs(cfg, st, token, args[1..]);
        FlagTakes(cfg, st, token, args[1..]);
        LoopAtEnd(cfg, f.state, args[if f.tookNext then 2 else 1..]);
      }
    }
  }

  /** The words before any `--`: a first part is parsed by position, the others are kept. */
  lemma {:induction false} LoopWords(cfg: Config, st: State, args: seq<string>)
    requires Fits(cfg, st) && ParseLoop(cfg, st, args).outcome == Done
    ensures var r := ParseLoop(cfg, st, args);
            && PositionalTexts(r.state.log) + r.kept == PositionalTexts(st.log) + Words(cfg, args)
            && (r.kept != [] ==> r.state.next == |cfg.positional|)
    decreases |args|
  {
    hide Classify;
    hide Consume;
    hide ParseFlag;
    hide Takes;
    hide ByPosition;
    if args != [] && args[0] != "--" {
      var token := Classify(args[0]);
      if token.Word? {
        var c := Consume(cfg, st, args[0]);
        var opt := ConsumeLogs(cfg, st, args[0]);
        if c.consumed {
          LoopWords(cfg, c.state, args[1..]);
          TextsOne(ByPosition(st.log), Event(opt, args[0], true));
          var before, more := PositionalTexts(st.log), Words(cfg, args[1..]);
          assert before + [args[0]] + more == before + Words(cfg, args);
          assert [] + ParseLoop(cfg, c.state, args[1..]).kept == ParseLoop(cfg, c.state, args[1..]).kept;
        } else {
          LoopAtEnd(cfg, c.state, args[1..]);
        }
      } else {
        var f := ParseFlag(cfg, st, token, args[1..]);
        FlagLogs(cfg, st, token, args[1..]);
        FlagTakes(cfg, st, token, args[1..]);
        LoopWords(cfg, f.state, args[if f.tookNext then 2 else 1..]);
      }
    }
  }

  lemma TextsOne(log: seq<Event>, e: Event)
    ensures Texts(log + [e]) == Texts(log) + [e.text]
  {
  }

  lemma {:induction false} LoopRemaining(cfg: Config, st: State, args: seq<string>)
    requires Fits(cfg, st) && ParseLoop(cfg, st, args).outcome == Done
    ensures ParseLoop(cfg, st, args).remaining == AfterDashes(cfg, args)
    decreases |args|
  {
    hide Classify;
    hide Consume;
    hide ParseFlag;
    hide Takes;
    if args != [] && args[0] != "--" {
      var token := Classify(args[0]);
      if token.Word? {
        WordTakesNothing(cfg, args[1..]);
        LoopRemaining(cfg, Consume(cfg, st, args[0]).state, args[1..]);
      } else {
        var f := ParseFlag(cfg, st, token, args[1..]);
        FlagTakes(cfg, st, token, args[1..]);
        LoopRemaining(cfg, f.state, args[if f.tookNext then 2 else 1..]);
      }
    }
  }

  lemma WordTakesNothing(cfg: Config, rest: seq<string>)
    ensures !Takes(cfg, Word, rest)
  {
  }

  /** Of the arguments after `--`, a first part of length `n` is parsed by position. */
  lemma {:induction false} RemainingWords(cfg: Config, st: State, args: seq<string>) returns (n: nat)
    requires Fits(cfg, st)
    ensures var t := ConsumeAll(cfg, st, args);
            && n <= |args| && PositionalTexts(t.log) == PositionalTexts(st.log) + args[..n]
            && (n < |args| ==> t.next == |cfg.positional|)
            && (st.next == |cfg.positional| ==> n == 0)
    decreases |args|
  {
    hide ByPosition;
    n := 0;
    if args != [] {
      var c := Consume(cfg, st, args[0]);
      var opt := ConsumeLogs(cfg, st, args[0]);
      n := RemainingWords(cfg, c.state, args[1..]);
      if c.consumed {
        TextsOne(ByPosition(st.log), Event(opt, args[0], true));
        assert PositionalTexts(st.log) + [args[0]] + args[1..][..n] == PositionalTexts(st.log) + args[..n + 1];
        n := n + 1;
      }
    }
  }

  /**
   A run that does not fail parses a first part of the positional arguments by position, in order. Of the others, those
   before any `--` are kept in argv, in order, and those after it are dropped; there are any only when the cursor has
   reached its end. Which arguments are positional follows from the registrations alone.
   */
  lemma WordsAreConsumedOrKept(cfg: Config, st: State, args: seq<string>)
    requires Fits(cfg, st) && st.log == [] && Parse(cfg, st, args).outcome == Done
    ensures var r, words, late := Parse(cfg, st, args), Words(cfg, args), AfterDashes(cfg, args);
            var n := |PositionalTexts(r.state.log)|;
            && n <= |words + late| && PositionalTexts(r.state.log) == (words + late)[..n]
            && r.kept == (if n <= |words| then words[n..] else [])
            && (n < |words + late| ==> r.state.next == |cfg.positional|)
  {
    hide ParseLoop;
    hide ConsumeAll;
    hide Words;
    hide AfterDashes;
    hide WithDefaults;
    var loop := ParseLoop(cfg, st, args);
    LoopWords(cfg, st, args);
    LoopRemaining(cfg, st, args);
    var early := PositionalTexts(loop.state.log);
    assert PositionalTexts(st.log) == [];
    assert early + loop.kept == Words(cfg, args);
    var n := RemainingWords(cfg, loop.state.(stores := WithDefaults(cfg, loop.state.stores)), loop.remaining);
  }

  /** The positional name at `k` can take an argument: a container always can, any other option until it is parsed. */
  predicate Open(cfg: Config, stores: map<OptionSpec, Store>, k: nat)
    requires k < |cfg.positional| && cfg.names.Values <= stores.Keys
  {
    cfg.positional[k] in cfg.names &&
      var opt := cfg.names[cfg.positional[k]];
      opt.isContainer || stores[opt].count == 0
  }

  /**
   A positional argument goes, as it is, to the first open name at or after the cursor, and is refused only when there
   is none. The cursor stays at a container and moves past any other option.
   */
  lemma {:induction false} ConsumeTarget(cfg: Config, st: State, a: string) returns (k: nat)
    requires Fits(cfg, st)
    ensures st.next <= k <= |cfg.positional| && forall j :: st.next <= j < k ==> !Open(cfg, st.stores, j)
    ensures var c := Consume(cfg, st, a);
            if k == |cfg.positional| then c == Consumption(st.(next := k), false)
            else
              && Open(cfg, st.stores, k) && c.consumed
              && var opt := cfg.names[cfg.positional[k]];
                 c.state.log == st.log + [Event(opt, a, true)] && c.state.next == if opt.isContainer then k else k + 1
    decreases |cfg.positional| - st.next
  {
    k := st.next;
    if k < |cfg.positional| && !Open(cfg, st.stores, k) {
      k := ConsumeTarget(cfg, st.(next := st.next + 1), a);
    }
  }

  // ----- What a failure depends on -----

  lemma {:induction false} ClusterOutcome(cfg: Config, s: State, t: State, letters: string, rest: seq<string>)
    requires Fits(cfg, s) && Fits(cfg, t)
    ensures ParseCluster(cfg, s, letters, rest).outcome == ParseCluster(cfg, t, letters, rest).outcome
    ensures ParseCluster(cfg, s, letters, rest).tookNext == ParseCluster(cfg, t, letters, rest).tookNext
    decreases |letters|
  {
    hide Feed;
    if letters != [] && [letters[0]] in cfg.names {
      var opt := cfg.names[[letters[0]]];
      ClusterOutcome(cfg, Feed(s, opt, "", false), Feed(t, opt, "", false), letters[1..], rest);
    }
  }

  lemma FlagOutcome(cfg: Config, s: State, t: State, token: Token, rest: seq<string>)
    requires Fits(cfg, s) && Fits(cfg, t) && !token.Word?
    ensures ParseFlag(cfg, s, token, rest).outcome == ParseFlag(cfg, t, token, rest).outcome
    ensures ParseFlag(cfg, s, token, rest).tookNext == ParseFlag(cfg, t, token, rest).tookNext
  {
    hide Feed;
    if token.Cluster? {
      ClusterOutcome(cfg, s, t, token.letters, rest);
    }
  }

  /**
   Whether a run fails, how, and what it leaves after a `--` follow from the registrations and the arguments alone:
   neither earlier parses nor which words were consumed have a say.
   */
  lemma {:induction false} OutcomeIgnoresState(cfg: Config, s: State, t: State, args: seq<string>)
    requires Fits(cfg, s) && Fits(cfg, t)
    ensures ParseLoop(cfg, s, args).outcome == ParseLoop(cfg, t, args).outcome
    ensures ParseLoop(cfg, s, args).remaining == ParseLoop(cfg, t, args).remaining
    decreases |args|
  {
    hide Classify;
    hide Consume;
    hide ParseFlag;
    if args != [] && args[0] != "--" {
      var token := Classify(args[0]);
      if token.Word? {
        OutcomeIgnoresState(cfg, Consume(cfg, s, args[0]).state, Consume(cfg, t, args[0]).state, args[1..]);
      } else {
        FlagOutcome(cfg, s, t, token, args[1..]);
        var f, g := ParseFlag(cfg, s, token, args[1..]), ParseFlag(cfg, t, token, args[1..]);
        OutcomeIgnoresState(cfg, f.state, g.state, args[if f.tookNext then 2 else 1..]);
      }
    }
  }

  // ----- The positional cursor over a whole run -----

  /**
   What holds of the log of a run that started from `base`. A positional value goes to an option that is no container
   only as the first value that option ever gets, so at most once; and once one has gone to a container, all later
   ones go to that container, where the cursor stays.
   */
  ghost predicate Orderly(cfg: Config, base: map<OptionSpec, Store>, st: State) {
    && (forall i :: 0 <= i < |st.log| && st.log[i].byPosition && !st.log[i].opt.isContainer ==>
          FirstValue(base, st.log, i))
    && (forall i, j | 0 <= i < j < |st.log| && st.log[i].byPosition && st.log[j].byPosition ::
          st.log[i].opt.isContainer ==> st.log[j].opt == st.log[i].opt)
    && (forall i :: 0 <= i < |st.log| && st.log[i].byPosition && st.log[i].opt.isContainer ==>
          AtContainer(cfg, st.next, st.log[i].opt))
  }

  ghost predicate FirstValue(base: map<OptionSpec, Store>, log: seq<Event>, i: nat)
    requires i < |log|
  {
    && (log[i].opt in base ==> base[log[i].opt].count == 0)
    && forall k :: 0 <= k < i ==> log[k].opt != log[i].opt
  }

  /** Every option in the log has been counted, and no count has gone down. */
  ghost predicate Counted(base: map<OptionSpec, Store>, st: State) {
    && (forall i :: 0 <= i < |st.log| ==> st.log[i].opt in st.stores && st.stores[st.log[i].opt].count > 0)
    && (forall o :: o in base ==> o in st.stores && base[o].count <= st.stores[o].count)
  }

  /** The texts that `events` parse into `opt`, in order; an empty one stands for an implicit value. */
  function Given(events: seq<Event>, opt: OptionSpec): seq<string> {
    if events == [] then []
    else
      var last := events[|events| - 1];
      var text := if last.text == "" && opt.hasImplicit then opt.implicitValue else last.text;
      Given(events[..|events| - 1], opt) + if last.opt == opt then [text] else []
  }

  /** A container has kept what it held and gained `given`; any other option holds the last of it, if there is any. */
  predicate Accounts(opt: OptionSpec, before: Store, after: Store, given: seq<string>) {
    && after.count == before.count + |given|
    && after.values == if opt.isContainer then before.values + given
                       else if given == [] then before.values
                       else [given[|given| - 1]]
  }

  /** What every option holds follows from what it held in `from` and the log since. */
  ghost predicate Accounted(from: State, st: State) {
    && from.log <= st.log && from.stores.Keys == st.stores.Keys
    && forall o :: o in from.stores ==> Accounts(o, from.stores[o], st.stores[o], Given(st.log[|from.log|..], o))
  }

  /** One more parse keeps the account of every option. */
  lemma AccountsOneMore(o: OptionSpec, before: Store, store: Store, log: seq<Event>, e: Event)
    requires Accounts(o, before, store, Given(log, o))
    ensures Accounts(o, before, if e.opt == o then Parsed(o, store, e.text) else store, Given(log + [e], o))
  {
    var given := Given(log, o);
    assert (log + [e])[..|log + [e]| - 1] == log;
    assert given + [] == given;
    assert before.values + (given + [Effective(o, e.text)]) == before.values + given + [Effective(o, e.text)];
  }

  lemma AccountedFeed(from: State, st: State, opt: OptionSpec, text: string, byPosition: bool)
    requires Accounted(from, st) && opt in st.stores
    ensures Accounted(from, Feed(st, opt, text, byPosition))
  {
    hide Accounts;
    hide Given;
    hide Parsed;
    var t, e := Feed(st, opt, text, byPosition), Event(opt, text, byPosition);
    assert t.log[|from.log|..] == st.log[|from.log|..] + [e];
    forall o | o in from.stores ensures Accounts(o, from.stores[o], t.stores[o], Given(t.log[|from.log|..], o)) {
      AccountsOneMore(o, from.stores[o], st.stores[o], st.log[|from.log|..], e);
    }
  }

  lemma AccountedMove(from: State, st: State, next: nat)
    requires Accounted(from, st)
    ensures Accounted(from, st.(next := next))
  {
  }

  lemma AccountedSelf(st: State)
    ensures Accounted(st, st)
  {
    assert forall o :: o in st.stores ==> st.stores[o].values + [] == st.stores[o].values;
  }

  ghost predicate Tracked(cfg: Config, base: map<OptionSpec, Store>, from: State, st: State) {
    Fits(cfg, st) && Orderly(cfg, base, st) && Counted(base, st) && Accounted(from, st)
  }

  lemma FeedByFlag(cfg: Config, base: map<OptionSpec, Store>, from: State, st: State, opt: OptionSpec, text: string)
    requires Tracked(cfg, base, from, st) && opt in st.stores
    ensures Tracked(cfg, base, from, Feed(st, opt, text, false))
  {
    hide Accounted;
    AccountedFeed(from, st, opt, text, false);
    var t := Feed(st, opt, text, false);
    forall i | 0 <= i < |t.log| && t.log[i].byPosition && !t.log[i].opt.isContainer ensures FirstValue(base, t.log, i) {
      assert FirstValue(base, st.log, i);
    }
  }

  /** `next` is where the cursor will stand after the event. */
  lemma FeedByPosition(cfg: Config, base: map<OptionSpec, Store>, from: State, st: State, name: string,
                       text: string, next: nat)
    requires Tracked(cfg, base, from, st) && st.next < |cfg.positional| && name == cfg.positional[st.next]
    requires name in cfg.names
    requires var opt := cfg.names[name];
             if opt.isContainer then next == st.next else st.stores[opt].count == 0 && next == st.next + 1
    ensures Tracked(cfg, base, from, Feed(st, cfg.names[name], text, true).(next := next))
  {
    hide Accounted;
    var opt := cfg.names[name];
    var t := Feed(st, opt, text, true).(next := next);
    AccountedFeed(from, st, opt, text, true);
    AccountedMove(from, Feed(st, opt, text, true), next);
    var n := |st.log|;
    forall i | 0 <= i < |t.log| && t.log[i].byPosition && !t.log[i].opt.isContainer ensures FirstValue(base, t.log, i) {
      if i < n {
        assert FirstValue(base, st.log, i);
      } else {
        assert forall k :: 0 <= k < n ==> st.log[k].opt != opt;
      }
    }
    forall i | 0 <= i < n && st.log[i].byPosition && st.log[i].opt.isContainer
      ensures st.log[i].opt == opt && opt.isContainer
    {
      assert AtContainer(cfg, st.next, st.log[i].opt);
    }
  }

  lemma SkipName(cfg: Config, base: map<OptionSpec, Store>, from: State, st: State)
    requires Tracked(cfg, base, from, st) && st.next < |cfg.positional|
    requires var name := cfg.positional[st.next]; name in cfg.names ==> !cfg.names[name].isContainer
    ensures Tracked(cfg, base, from, st.(next := st.next + 1))
  {
    hide Accounted;
    AccountedMove(from, st, st.next + 1);
    assert forall o :: !AtContainer(cfg, st.next, o);
    var t := st.(next := st.next + 1);
    forall i | 0 <= i < |t.log| && t.log[i].byPosition && !t.log[i].opt.isContainer ensures FirstValue(base, t.log, i) {
      assert FirstValue(base, st.log, i);
    }
  }

  lemma {:induction false} ConsumeTracked(cfg: Config, base: map<OptionSpec, Store>, from: State, st: State, a: string)
    requires Tracked(cfg, base, from, st)
    ensures Tracked(cfg, base, from, Consume(cfg, st, a).state)
    decreases |cfg.positional| - st.next
  {
    hide Orderly;
    hide Counted;
    hide Accounted;
    if st.next < |cfg.positional| {
      var name, skipped := cfg.positional[st.next], st.(next := st.next + 1);
      if name in cfg.names && cfg.names[name].isContainer {
        FeedByPosition(cfg, base, from, st, name, a, st.next);
      } else if name in cfg.names && st.stores[cfg.names[name]].count == 0 {
        FeedByPosition(cfg, base, from, st, name, a, st.next + 1);
      } else {
        SkipName(cfg, base, from, st);
        ConsumeTracked(cfg, base, from, skipped, a);
      }
    }
  }

  lemma CheckedTracked(cfg: Config, base: map<OptionSpec, Store>, from: State, st: State, opt: OptionSpec,
                       name: string, rest: seq<string>)
    requires Tracked(cfg, base, from, st) && opt in st.stores
    ensures Tracked(cfg, base, from, CheckedParse(cfg, st, opt, name, rest).state)
  {
    hide Orderly;
    hide Counted;
    hide Accounted;
    FeedByFlag(cfg, base, from, st, opt, "");
    if rest != [] {
      FeedByFlag(cfg, base, from, st, opt, rest[0]);
    }
  }

  lemma {:induction false} ClusterTracked(cfg: Config, base: map<OptionSpec, Store>, from: State, st: State,
                                          letters: string, rest: seq<string>)
    requires Tracked(cfg, base, from, st)
    ensures Tracked(cfg, base, from, ParseCluster(cfg, st, letters, rest).state)
    decreases |letters|
  {
    hide Orderly;
    hide Counted;
    hide Accounted;
    hide CheckedParse;
    if letters != [] && [letters[0]] in cfg.names {
      var opt := cfg.names[[letters[0]]];
      CheckedTracked(cfg, base, from, st, opt, [letters[0]], rest);
      FeedByFlag(cfg, base, from, st, opt, "");
      ClusterTracked(cfg, base, from, Feed(st, opt, "", false), letters[1..], rest);
    }
  }

  lemma FlagTracked(cfg: Config, base: map<OptionSpec, Store>, from: State, st: State, token: Token, rest: seq<string>)
    requires Tracked(cfg, base, from, st) && !token.Word?
    ensures Tracked(cfg, base, from, ParseFlag(cfg, st, token, rest).state)
  {
    hide Orderly;
    hide Counted;
    hide Accounted;
    hide CheckedParse;
    hide ParseCluster;
    if token.Cluster? {
      ClusterTracked(cfg, base, from, st, token.letters, rest);
    } else if token.name in cfg.names {
      var opt := cfg.names[token.name];
      CheckedTracked(cfg, base, from, st, opt, token.name, rest);
      FeedByFlag(cfg, base, from, st, opt, "");
      FeedByFlag(cfg, base, from, st, opt, token.value);
    }
  }

  lemma {:induction false} LoopTracked(cfg: Config, base: map<OptionSpec, Store>, from: State, st: State,
                                       args: seq<string>)
    requires Tracked(cfg, base, from, st)
    ensures Tracked(cfg, base, from, ParseLoop(cfg, st, args).state)
    decreases |args|
  {
    hide Orderly;
    hide Counted;
    hide Accounted;
    hide Classify;
    hide Consume;
    hide ParseFlag;
    if args != [] && args[0] != "--" {
      var token := Classify(args[0]);
      if token.Word? {
        ConsumeTracked(cfg, base, from, st, args[0]);
        LoopTracked(cfg, base, from, Consume(cfg, st, args[0]).state, args[1..]);
      } else {
        var f := ParseFlag(cfg, st, token, args[1..]);
        FlagTracked(cfg, base, from, st, token, args[1..]);
        LoopTracked(cfg, base, from, f.state, args[if f.tookNext then 2 else 1..]);
      }
    }
  }

  lemma {:induction false} RemainingTracked(cfg: Config, base: map<OptionSpec, Store>, from: State, st: State,
                                            args: seq<string>)
    requires Tracked(cfg, base, from, st)
    ensures Tracked(cfg, base, from, ConsumeAll(cfg, st, args))
    decreases |args|
  {
    hide Orderly;
    hide Counted;
    hide Accounted;
    hide Consume;
    if args != [] {
      ConsumeTracked(cfg, base, from, st, args[0]);
      RemainingTracked(cfg, base, from, Consume(cfg, st, args[0]).state, args[1..]);
    }
  }

  lemma DefaultsTracked(cfg: Config, base: map<OptionSpec, Store>, from: State, st: State)
    requires Tracked(cfg, base, from, st)
    ensures var t := st.(stores := WithDefaults(cfg, st.stores)); Tracked(cfg, base, t, t)
  {
    hide Accounted;
    var t := st.(stores := WithDefaults(cfg, st.stores));
    AccountedSelf(t);
    forall o | o in st.stores ensures t.stores[o].count == st.stores[o].count {
      DefaultedKeepsCount(o, st.stores[o], |NamesOf(cfg.names, o)|);
    }
    forall i | 0 <= i < |t.log| && t.log[i].byPosition && !t.log[i].opt.isContainer ensures FirstValue(base, t.log, i) {
      assert FirstValue(base, st.log, i);
    }
  }

  /** The two phases of a run: from its start to the end of the argument loop, and from there with the defaults on. */
  lemma RunTracked(cfg: Config, st: State, args: seq<string>)
    requires Fits(cfg, st) && st.log == []
    ensures var loop, r := ParseLoop(cfg, st, args), Parse(cfg, st, args);
            && Tracked(cfg, st.stores, st, loop.state)
            && if r.outcome != Done then r.state == loop.state
               else Tracked(cfg, st.stores, loop.state.(stores := WithDefaults(cfg, loop.state.stores)), r.state)
  {
    hide WithDefaults;
    hide Accounted;
    hide ParseLoop;
    hide ConsumeAll;
    var loop := ParseLoop(cfg, st, args);
    AccountedSelf(st);
    assert Tracked(cfg, st.stores, st, st);
    LoopTracked(cfg, st.stores, st, st, args);
    if loop.outcome == Done {
      DefaultsTracked(cfg, st.stores, st, loop.state);
      var t := loop.state.(stores := WithDefaults(cfg, loop.state.stores));
      RemainingTracked(cfg, st.stores, t, t, loop.remaining);
    }
  }

  /** Every run of `parse`, failed or not, leaves an orderly log; the cursor only moves forward. */
  lemma PositionalRun(cfg: Config, st: State, args: seq<string>)
    requires Fits(cfg, st) && st.log == []
    ensures Orderly(cfg, st.stores, Parse(cfg, st, args).state)
    ensures st.next <= Parse(cfg, st, args).state.next
  {
    RunTracked(cfg, st, args);
  }

  /** One positional parse of each text, all into `opt`. */
  function AllTo(opt: OptionSpec, texts: seq<string>): (log: seq<Event>)
    ensures |log| == |texts|
  {
    seq(|texts|, i requires 0 <= i < |texts| => Event(opt, texts[i], true))
  }

  lemma AllToCons(opt: OptionSpec, a: string, rest: seq<string>, before: seq<Event>)
    ensures before + AllTo(opt, []) == before
    ensures before + [Event(opt, a, true)] + AllTo(opt, rest) == before + AllTo(opt, [a] + rest)
  {
  }

  lemma {:induction false} ContainerLoop(cfg: Config, st: State, args: seq<string>, opt: OptionSpec)
    requires Fits(cfg, st) && AtContainer(cfg, st.next, opt) && ParseLoop(cfg, st, args).outcome == Done
    ensures var r := ParseLoop(cfg, st, args);
            && r.kept == [] && r.state.next == st.next
            && ByPosition(r.state.log) == ByPosition(st.log) + AllTo(opt, Words(cfg, args))
    decreases |args|
  {
    hide Classify;
    hide Consume;
    hide ParseFlag;
    hide Takes;
    hide ByPosition;
    AllToCons(opt, "", [], ByPosition(st.log));
    if args != [] && args[0] != "--" {
      var token := Classify(args[0]);
      if token.Word? {
        var o := ConsumeLogs(cfg, st, args[0]);
        assert AtContainer(cfg, st.next, opt);
        ContainerLoop(cfg, Consume(cfg, st, args[0]).state, args[1..], opt);
        AllToCons(opt, args[0], Words(cfg, args[1..]), ByPosition(st.log));
      } else {
        var f := ParseFlag(cfg, st, token, args[1..]);
        FlagLogs(cfg, st, token, args[1..]);
        FlagTakes(cfg, st, token, args[1..]);
        ContainerLoop(cfg, f.state, args[if f.tookNext then 2 else 1..], opt);
      }
    }
  }

  lemma {:induction false} ContainerRemaining(cfg: Config, st: State, args: seq<string>, opt: OptionSpec)
    requires Fits(cfg, st) && AtContainer(cfg, st.next, opt)
    ensures var t := ConsumeAll(cfg, st, args);
            t.next == st.next && ByPosition(t.log) == ByPosition(st.log) + AllTo(opt, args)
    decreases |args|
  {
    hide Consume;
    hide ByPosition;
    AllToCons(opt, "", [], ByPosition(st.log));
    if args != [] {
      var o := ConsumeLogs(cfg, st, args[0]);
      assert AtContainer(cfg, st.next, opt);
      ContainerRemaining(cfg, Consume(cfg, st, args[0]).state, args[1..], opt);
      AllToCons(opt, args[0], args[1..], ByPosition(st.log));
      assert [args[0]] + args[1..] == args;
    }
  }

  /**
   Once the cursor stands at a registered container, that container receives every later positional argument, before
   and after any `--`, in order, nothing is kept, and the cursor stays.
   */
  lemma ContainerTakesAll(cfg: Config, st: State, args: seq<string>, opt: OptionSpec)
    requires Fits(cfg, st) && AtContainer(cfg, st.next, opt) && Parse(cfg, st, args).outcome == Done
    ensures var r := Parse(cfg, st, args);
            && r.kept == [] && r.state.next == st.next
            && ByPosition(r.state.log) == ByPosition(st.log) + AllTo(opt, Words(cfg, args) + AfterDashes(cfg, args))
  {
    hide ParseLoop;
    hide ConsumeAll;
    hide Words;
    hide AfterDashes;
    hide WithDefaults;
    hide ByPosition;
    var loop := ParseLoop(cfg, st, args);
    ContainerLoop(cfg, st, args, opt);
    LoopRemaining(cfg, st, args);
    ContainerRemaining(cfg, loop.state.(stores := WithDefaults(cfg, loop.state.stores)), loop.remaining, opt);
    var words, late := Words(cfg, args), AfterDashes(cfg, args);
    assert ByPosition(st.log) + AllTo(opt, words) + AllTo(opt, late) == ByPosition(st.log) + AllTo(opt, words + late);
  }

  // ----- Defaults -----

  function Repeat(text: string, times: nat): (r: seq<string>)
    ensures |r| == times
  {
    seq(times, _ => text)
  }

  lemma {:induction false} DefaultedValues(opt: OptionSpec, store: Store, times: nat)
    requires store.count == 0 && opt.hasDefault && times > 0
    ensures Defaulted(opt, store, times).values
         == if opt.isContainer then store.values + Repeat(opt.defaultValue, times) else [opt.defaultValue]
  {
    var t, d := times - 1, opt.defaultValue;
    DefaultedKeepsCount(opt, store, t);
    if t > 0 {
      DefaultedValues(opt, store, t);
    }
    assert Repeat(d, times) == Repeat(d, t) + [d];
    assert store.values + Repeat(d, t) + [d] == store.values + Repeat(d, times);
    assert t == 0 ==> store.values + Repeat(d, t) == store.values;
  }

  /**
   An option never parsed ends up holding its default; but the default loop visits names, so a container gets one copy
   for each of its names: exactly one copy exactly when it has one name.
   */
  lemma DefaultPerName(cfg: Config, stores: map<OptionSpec, Store>, opt: OptionSpec)
    requires opt in stores && opt in cfg.names.Values && stores[opt].count == 0 && stores[opt].values == []
    requires opt.hasDefault
    ensures var values := WithDefaults(cfg, stores)[opt].values;
            && values == Repeat(opt.defaultValue, if opt.isContainer then |NamesOf(cfg.names, opt)| else 1)
            && (values == [opt.defaultValue] <==> !opt.isContainer || |NamesOf(cfg.names, opt)| == 1)
  {
    var names := NamesOf(cfg.names, opt);
    var n :| n in cfg.names && cfg.names[n] == opt;
    assert n in names && |names| > 0;
    DefaultedValues(opt, stores[opt], |names|);
    assert [] + Repeat(opt.defaultValue, |names|) == Repeat(opt.defaultValue, |names|);
    assert Repeat(opt.defaultValue, 1) == [opt.defaultValue];
  }

  /** A container registered as both `i` and `include`, with a default, holds the default twice. */
  lemma DefaultTwice(opt: OptionSpec, st: State)
    requires opt.isContainer && opt.hasDefault && opt in st.stores && st.stores[opt] == Store(0, [])
    ensures var cfg := Config(map["i" := opt, "include" := opt], []);
            WithDefaults(cfg, st.stores)[opt].values == [opt.defaultValue, opt.defaultValue]
  {
    var cfg := Config(map["i" := opt, "include" := opt], []);
    assert cfg.names["i"] == opt;
    DefaultPerName(cfg, st.stores, opt);
    assert NamesOf(cfg.names, opt) == {"i", "include"};
    assert "i" != "include" by {
      assert |"i"| != |"include"|;
    }
  }

  // ----- What each option holds -----

  lemma {:induction false} GivenConcat(a: seq<Event>, b: seq<Event>, opt: OptionSpec)
    ensures Given(a + b, opt) == Given(a, opt) + Given(b, opt)
    decreases |b|
  {
    if b == [] {
      assert a + b == a;
    } else {
      var n := |b| - 1;
      GivenConcat(a, b[..n], opt);
      assert (a + b)[..|a + b| - 1] == a + b[..n] && (a + b)[|a + b| - 1] == b[n];
    }
  }

  /** How many copies of its default an option parsed `count` times is given. */
  function CopiesOf(cfg: Config, count: nat, opt: OptionSpec): nat {
    if count == 0 && opt.hasDefault then |NamesOf(cfg.names, opt)| else 0
  }

  /**
   An option that held `before`, got `times` copies of its default and was given `given` now holds `after`: it has been
   counted once for each text given. A container keeps what it held, then has the defaults, then every text given, in
   order. Any other option holds the last text given, or else its default, or else what it held.
   */
  predicate HoldsAfter(opt: OptionSpec, before: Store, times: nat, given: seq<string>, after: Store) {
    && after.count == before.count + |given|
    && after.values == if opt.isContainer then before.values + Repeat(opt.defaultValue, times) + given
                       else if given != [] then [given[|given| - 1]]
                       else if times > 0 then [opt.defaultValue]
                       else before.values
  }

  /** Texts given, no defaults. */
  lemma HoldsEarly(opt: OptionSpec, before: Store, after: Store, given: seq<string>)
    requires Accounts(opt, before, after, given)
    ensures HoldsAfter(opt, before, 0, given, after)
  {
    assert before.values + Repeat(opt.defaultValue, 0) == before.values;
  }

  /** Texts given, then either no defaults or nothing was given, then texts given again. */
  lemma HoldsThroughout(opt: OptionSpec, before: Store, early: seq<string>, times: nat, d: Store, late: seq<string>,
                        after: Store)
    requires early == [] || times == 0
    requires HoldsAfter(opt, before, times, early, d) && Accounts(opt, d, after, late)
    ensures HoldsAfter(opt, before, times, early + late, after)
  {
    var held := before.values + Repeat(opt.defaultValue, times);
    assert held + early + late == held + (early + late);
    assert late == [] ==> early + late == early;
  }

  /** The default loop gives its copies to an option that holds what it was given so far. */
  lemma AfterDefaults(cfg: Config, before: Store, stores: map<OptionSpec, Store>, opt: OptionSpec, early: seq<string>)
    requires opt in stores && HoldsAfter(opt, before, 0, early, stores[opt])
    ensures var times := CopiesOf(cfg, before.count + |early|, opt);
            && (early == [] || times == 0)
            && HoldsAfter(opt, before, times, early, WithDefaults(cfg, stores)[opt])
  {
    var names, store := |NamesOf(cfg.names, opt)|, stores[opt];
    DefaultedKeepsCount(opt, store, names);
    if CopiesOf(cfg, store.count, opt) > 0 {
      DefaultedValues(opt, store, names);
      assert before.values + Repeat(opt.defaultValue, 0) == before.values;
      assert forall s: seq<string> :: s + [] == s;
    }
  }

  /**
   What an option holds after a run, given what it held before and all texts parsed into it. An option with a default
   gets it exactly when the run does not fail and the option was never parsed up to the end of the argument loop.
   */
  lemma OptionHolds(cfg: Config, st: State, args: seq<string>, opt: OptionSpec)
    requires Fits(cfg, st) && st.log == [] && opt in st.stores
    ensures var r, early := Parse(cfg, st, args), Given(ParseLoop(cfg, st, args).state.log, opt);
            var times := if r.outcome == Done then CopiesOf(cfg, st.stores[opt].count + |early|, opt) else 0;
            && opt in r.state.stores && early <= Given(r.state.log, opt)
            && HoldsAfter(opt, st.stores[opt], times, Given(r.state.log, opt), r.state.stores[opt])
  {
    hide ParseLoop;
    hide ConsumeAll;
    hide WithDefaults;
    hide CopiesOf;
    hide Given;
    hide Accounts;
    hide HoldsAfter;
    RunTracked(cfg, st, args);
    var loop, r := ParseLoop(cfg, st, args), Parse(cfg, st, args);
    var early, held := Given(loop.state.log, opt), loop.state.stores[opt];
    assert loop.state.log[|st.log|..] == loop.state.log;
    HoldsEarly(opt, st.stores[opt], held, early);
    if r.outcome == Done {
      var t := loop.state.(stores := WithDefaults(cfg, loop.state.stores));
      var late := r.state.log[|t.log|..];
      AfterDefaults(cfg, st.stores[opt], loop.state.stores, opt, early);
      assert r.state.log == loop.state.log + late;
      GivenConcat(loop.state.log, late, opt);
      HoldsThroughout(opt, st.stores[opt], early, CopiesOf(cfg, held.count, opt), t.stores[opt], Given(late, opt),
                      r.state.stores[opt]);
    }
  }
}
