/** Command-line parsing as `Options::parse` of `include/cxxopts.hpp` does it, as a function of the arguments. */
module ArgSpec {

  // ----- Tokens: the regular expression `option_matcher` -----

  predicate IsAlnum(c: char) {
    '0' <= c <= '9' || 'A' <= c <= 'Z' || 'a' <= c <= 'z'
  }

  predicate IsNameChar(c: char) {
    IsAlnum(c) || c == '-' || c == '_'
  }

  /** Where the run of name characters from `i` ends. */
  function NameEnd(s: string, i: nat): (e: nat)
    requires i <= |s|
    ensures i <= e <= |s|
    decreases |s| - i
  {
    if i < |s| && IsNameChar(s[i]) then NameEnd(s, i + 1) else i
  }

  /** Not a flag; a cluster of short options; or a long option with the text after its equals sign, if any. */
  datatype Token = Word | Cluster(letters: string) | Long(name: string, value: string)

  function Classify(s: string): Token {
    if "--" <= s then
      var e := NameEnd(s, 2);
      if e < 4 || !IsAlnum(s[2]) then Word
      else if e == |s| then Long(s[2..], "")
      else if s[e] == '=' && '\n' !in s[e + 1..] && '\r' !in s[e + 1..] then Long(s[2..e], s[e + 1..])
      else Word
    else if "-" < s && forall i :: 1 <= i < |s| ==> IsAlnum(s[i]) then Cluster(s[1..])
    else Word
  }

  // ----- Options -----

  /** A registered option; two names may lead to the same one. */
  datatype OptionSpec = OptionSpec(id: nat, hasArg: bool, isContainer: bool, hasImplicit: bool, implicitValue: string,
                                   hasDefault: bool, defaultValue: string)

  /** How often an option was parsed, and what it holds. */
  datatype Store = Store(count: nat, values: seq<string>)

  function Put(opt: OptionSpec, values: seq<string>, text: string): seq<string> {
    if opt.isContainer then values + [text] else [text]
  }

  /** The text an option takes: an empty one stands for the implicit value. */
  function Effective(opt: OptionSpec, text: string): string {
    if opt.hasImplicit && text == "" then opt.implicitValue else text
  }

  /** `OptionDetails::parse`. */
  function Parsed(opt: OptionSpec, store: Store, text: string): Store {
    Store(store.count + 1, Put(opt, store.values, Effective(opt, text)))
  }

  datatype Event = Event(opt: OptionSpec, text: string, byPosition: bool)

  /** The registered names and the names that take positional arguments. */
  datatype Config = Config(names: map<string, OptionSpec>, positional: seq<string>)

  /** What each option holds, the positional cursor, and every parse so far. */
  datatype State = State(stores: map<OptionSpec, Store>, next: nat, log: seq<Event>)

  predicate Fits(cfg: Config, st: State) {
    cfg.names.Values <= st.stores.Keys && st.next <= |cfg.positional|
  }

  function Feed(st: State, opt: OptionSpec, text: string, byPosition: bool): (t: State)
    requires opt in st.stores
    ensures t.next == st.next && t.stores.Keys == st.stores.Keys
  {
    State(st.stores[opt := Parsed(opt, st.stores[opt], text)], st.next, st.log + [Event(opt, text, byPosition)])
  }

  // ----- One argument -----

  datatype Consumption = Consumption(state: State, consumed: bool)

  /** `consume_positional`. */
  function Consume(cfg: Config, st: State, a: string): (c: Consumption)
    requires Fits(cfg, st)
    ensures Fits(cfg, c.state) && st.next <= c.state.next
    decreases |cfg.positional| - st.next
  {
    if st.next == |cfg.positional| then Consumption(st, false)
    else
      var name, skipped := cfg.positional[st.next], st.(next := st.next + 1);
      if name !in cfg.names then Consume(cfg, skipped, a)
      else
        var opt := cfg.names[name];
        if opt.isContainer then Consumption(Feed(st, opt, a, true), true)
        else if st.stores[opt].count == 0 then Consumption(Feed(skipped, opt, a, true), true)
        else Consume(cfg, skipped, a)
  }

  datatype Outcome = Done
                   | NotExists(name: string)
                   | MissingArgument(name: string)
                   | RequiresArgument(name: string)
                   | TakesNoArgument(name: string, arg: string)

  /** The state after a flag, whether it took the next argument, and whether it was accepted. */
  datatype Flagged = Flagged(state: State, tookNext: bool, outcome: Outcome)

  /** `checked_parse_arg`, with the arguments after the current one. */
  function CheckedParse(cfg: Config, st: State, opt: OptionSpec, name: string, rest: seq<string>): (f: Flagged)
    requires Fits(cfg, st) && opt in st.stores
    ensures Fits(cfg, f.state) && f.state.next == st.next
    ensures f.tookNext ==> rest != [] && f.outcome == Done
  {
    if rest == [] then
      if opt.hasImplicit then Flagged(Feed(st, opt, "", false), false, Done)
      else Flagged(st, false, MissingArgument(name))
    else if "-" <= rest[0] && opt.hasImplicit then Flagged(Feed(st, opt, "", false), false, Done)
    else Flagged(Feed(st, opt, rest[0], false), true, Done)
  }

  /** The loop over a cluster of short options. */
  function ParseCluster(cfg: Config, st: State, letters: string, rest: seq<string>): (f: Flagged)
    requires Fits(cfg, st)
    ensures Fits(cfg, f.state) && f.state.next == st.next
    ensures f.tookNext ==> rest != [] && f.outcome == Done
    decreases |letters|
  {
    if letters == [] then Flagged(st, false, Done)
    else
      var name := [letters[0]];
      if name !in cfg.names then Flagged(st, false, NotExists(name))
      else
        var opt := cfg.names[name];
        if !opt.hasArg then ParseCluster(cfg, Feed(st, opt, "", false), letters[1..], rest)
        else if |letters| == 1 then CheckedParse(cfg, st, opt, name, rest)
        else if opt.hasImplicit then ParseCluster(cfg, Feed(st, opt, "", false), letters[1..], rest)
        else Flagged(st, false, RequiresArgument(name))
  }

  function ParseLong(cfg: Config, st: State, name: string, value: string, rest: seq<string>): (f: Flagged)
    requires Fits(cfg, st)
    ensures Fits(cfg, f.state) && f.state.next == st.next
    ensures f.tookNext ==> rest != [] && f.outcome == Done
  {
    if name !in cfg.names then Flagged(st, false, NotExists(name))
    else
      var opt := cfg.names[name];
      if value != "" then
        if !opt.hasArg then Flagged(st, false, TakesNoArgument(name, value))
        else Flagged(Feed(st, opt, value, false), false, Done)
      else if opt.hasArg then CheckedParse(cfg, st, opt, name, rest)
      else Flagged(Feed(st, opt, "", false), false, Done)
  }

  /** A flag, given the arguments after it. */
  function ParseFlag(cfg: Config, st: State, token: Token, rest: seq<string>): (f: Flagged)
    requires Fits(cfg, st) && !token.Word?
    ensures Fits(cfg, f.state) && f.state.next == st.next
    ensures f.tookNext ==> rest != [] && f.outcome == Done
  {
    match token
    case Cluster(letters) => ParseCluster(cfg, st, letters, rest)
    case Long(name, value) => ParseLong(cfg, st, name, value, rest)
  }

  // ----- The whole run -----

  /** The state after the loop, the arguments it keeps, how it ended, and what stands after a `--`. */
  datatype LoopResult = LoopResult(state: State, kept: seq<string>, outcome: Outcome, remaining: seq<string>)

  function ParseLoop(cfg: Config, st: State, args: seq<string>): (r: LoopResult)
    requires Fits(cfg, st)
    ensures Fits(cfg, r.state) && st.next <= r.state.next
    decreases |args|
  {
    if args == [] then LoopResult(st, [], Done, [])
    else if args[0] == "--" then LoopResult(st, [], Done, args[1..])
    else if Classify(args[0]).Word? then
      var c := Consume(cfg, st, args[0]);
      var r := ParseLoop(cfg, c.state, args[1..]);
      r.(kept := (if c.consumed then [] else [args[0]]) + r.kept)
    else
      var f := ParseFlag(cfg, st, Classify(args[0]), args[1..]);
      if f.outcome != Done then LoopResult(f.state, [], f.outcome, [])
      else ParseLoop(cfg, f.state, args[if f.tookNext then 2 else 1..])
  }

  /** The names that lead to an option. */
  function NamesOf(names: map<string, OptionSpec>, opt: OptionSpec): set<string> {
    set n | n in names && names[n] == opt
  }

  /** `times` rounds of `parse_default` on an option: it does not count as a parse. */
  function Defaulted(opt: OptionSpec, store: Store, times: nat): Store {
    if times == 0 || store.count != 0 || !opt.hasDefault then store
    else Store(0, Put(opt, Defaulted(opt, store, times - 1).values, opt.defaultValue))
  }

  lemma {:induction false} DefaultedKeepsCount(opt: OptionSpec, store: Store, times: nat)
    ensures Defaulted(opt, store, times).count == store.count
  {
  }

  /** The default loop visits every name, hence an option once per name. */
  function WithDefaults(cfg: Config, stores: map<OptionSpec, Store>): (m: map<OptionSpec, Store>)
    ensures m.Keys == stores.Keys
  {
    map opt | opt in stores :: Defaulted(opt, stores[opt], |NamesOf(cfg.names, opt)|)
  }

  function ConsumeAll(cfg: Config, st: State, args: seq<string>): (t: State)
    requires Fits(cfg, st)
    ensures Fits(cfg, t) && st.next <= t.next
    decreases |args|
  {
    if args == [] then st else ConsumeAll(cfg, Consume(cfg, st, args[0]).state, args[1..])
  }

  /** The state after `parse`, what it keeps in argv, and how it ended. */
  datatype ParseResult = ParseResult(state: State, kept: seq<string>, outcome: Outcome)

  function Parse(cfg: Config, st: State, args: seq<string>): (r: ParseResult)
    requires Fits(cfg, st)
    ensures Fits(cfg, r.state) && st.next <= r.state.next
  {
    var loop := ParseLoop(cfg, st, args);
    if loop.outcome != Done then ParseResult(loop.state, loop.kept, loop.outcome)
    else
      var defaulted := loop.state.(stores := WithDefaults(cfg, loop.state.stores));
      ParseResult(ConsumeAll(cfg, defaulted, loop.remaining), loop.kept, Done)
  }
}
