/** `Lettvin::GreasedGrep` of gg.cpp: the command line turned into options,
    accept and reject lists and the tables of the state machine, the
    preparation before the search, and the search of one buffer. The
    functions first state what each step does to the program's state as a
    value (`World`); the class `Session` then holds that state in fields, as
    the source's globals do, and its methods are proved against the
    functions. */
module Grep {
  import opened Bytes
  import opened Options
  import opened StateMachine
  import Tables
  import Scan
  import Tokenizer
  import Variants
  import Ordering
  import Correctness

  //----------------------------------------------------------------------------
  // options

  /** The settings options change: `s_caseless`, `s_debug`, the nibble
      shape, `s_quicktree`, `s_suppress`, `s_test`, `s_variant` and
      `s_oversize`. */
  datatype Flags = Flags(
    caseless: bool, debug: nat, nibbles: bool, quicktree: bool,
    suppress: bool, test: bool, variant: bool, oversize: nat)

  /** Their values before any option. */
  const Defaults: Flags := Flags(true, 0, false, false, false, false, false, 1)

  /** The letters of the two-byte options. */
  const OptionLetters: Text := "cdnqstv"

  /** The letters a bundle `--xyz` accepts: every option letter but `q`. */
  const Bundled: Text := "cdnstv"

  /** The effect of one option letter. */
  function Apply(f: Flags, c: Byte): (g: Flags)
    requires c in OptionLetters
    ensures g.oversize == f.oversize
    ensures g.debug == f.debug + (if c == 'd' then 1 else 0)
    ensures g.caseless == (f.caseless && c != 'c')
  {
    match c
    case 'c' => f.(caseless := false)
    case 'd' => f.(debug := f.debug + 1)
    case 'n' => f.(nibbles := true)
    case 'q' => f.(quicktree := true)
    case 's' => f.(suppress := true)
    case 't' => f.(test := true)
    case 'v' => f.(variant := true)
  }

  /** The letter an argument names: `-c` and `--case` name `c`, and so on. */
  function Letter(a: Text): (r: Option<Byte>)
    ensures r.Some? ==> r.value in OptionLetters
  {
    if |a| == 2 && a[1] in OptionLetters then Some(a[1])
    else if a == "--case" then Some('c')
    else if a == "--debug" then Some('d')
    else if a == "--nibbles" then Some('n')
    else if a == "--quicktree" then Some('q')
    else if a == "--suppress" then Some('s')
    else if a == "--test" then Some('t')
    else if a == "--variant" then Some('v')
    else None
  }

  /** The letters of a bundle applied in order; `None` at the first letter
      the bundle does not accept. */
  function Bundle(f: Flags, letters: Text): (r: Option<Flags>)
    ensures r.Some? ==> r.value.oversize == f.oversize && r.value.debug >= f.debug
    decreases |letters|
  {
    if letters == [] then Some(f)
    else if letters[0] in Bundled then Bundle(Apply(f, letters[0]), letters[1..])
    else None
  }

  predicate IsDigit(c: Byte)
  {
    '0' <= c <= '9'
  }

  /** `-N` sets the core multiplier to N, and `-0` to 1. */
  function Oversize(d: Byte): nat
    requires IsDigit(d)
  {
    if d == '0' then 1 else d as int - '0' as int
  }

  /** What `option` makes of an argument: not an option (it returns false),
      an option with the flags it leaves, or a syntax error. `strs` says
      whether a pattern has been pushed already. */
  datatype Parsed = NotOption | Handled(flags: Flags) | Refused

  function OptionOf(f: Flags, a: Text, strs: bool): (r: Parsed)
    requires |a| >= 1
    ensures r.NotOption? <==> a[0] != '-' || (!strs && |a| > 2 && Letter(a).None? && a[1] != '-')
    ensures r.Handled? ==> !strs && |a| >= 2
  {
    if a[0] != '-' then NotOption
    else if strs || |a| < 2 then Refused
    else if |a| == 2 && IsDigit(a[1]) then Handled(f.(oversize := Oversize(a[1])))
    else match Letter(a)
      case Some(c) => Handled(Apply(f, c))
      case None =>
        if a[1] == '-' then
          match Bundle(f, a[2..])
          case Some(g) => Handled(g)
          case None => Refused
        else if |a| == 2 then Refused
        else NotOption
  }

  /** Options are refused once a pattern has been pushed. */
  lemma OptionAfterPattern(f: Flags, a: Text)
    requires |a| >= 1 && a[0] == '-'
    ensures OptionOf(f, a, true) == Refused
  {
  }

  /** `-N` for a digit N sets the multiplier to N, or to 1 for `-0`, and
      changes nothing else. */
  lemma DigitOption(f: Flags, d: Byte)
    requires IsDigit(d)
    ensures var r := OptionOf(f, ['-', d], false);
      && r.Handled? && r.flags == f.(oversize := r.flags.oversize)
      && 1 <= r.flags.oversize <= 9
      && (d != '0' ==> r.flags.oversize == d as int - '0' as int)
  {
  }

  /** Each letter of a bundle acts as its own two-byte option. */
  lemma BundledLetter(f: Flags, c: Byte)
    requires c in Bundled
    ensures OptionOf(f, ['-', c], false) == Handled(Apply(f, c))
  {
  }

  /** A bundle is refused exactly when it holds a letter outside `cdnstv`. */
  lemma {:induction false} BundleRefused(f: Flags, letters: Text)
    ensures Bundle(f, letters).None? <==> exists i :: 0 <= i < |letters| && letters[i] !in Bundled
    decreases |letters|
  {
    if letters != [] {
      if letters[0] in Bundled {
        BundleRefused(Apply(f, letters[0]), letters[1..]);
        if exists i :: 0 <= i < |letters| && letters[i] !in Bundled {
          var i :| 0 <= i < |letters| && letters[i] !in Bundled;
          assert letters[1..][i - 1] == letters[i];
        }
      }
    }
  }

  /** A two-byte option with a byte that is neither a digit, an option
      letter nor `-` is refused. */
  lemma UnknownOption(f: Flags, c: Byte)
    requires !IsDigit(c) && c !in OptionLetters && c != '-'
    ensures OptionOf(f, ['-', c], false) == Refused
  {
  }

  //----------------------------------------------------------------------------
  // the program's state

  /** The globals ingest, compile and `operator()` read and write: the
      flags, the accept and reject lists (each with the placeholder at index
      0), the held argument `s_target`, `s_noreject`, the file name
      patterns `s_filesx`, and the tables. */
  datatype World = World(
    flags: Flags, accept: seq<Text>, reject: seq<Text>, target: Text,
    noreject: bool, filesx: seq<Text>, tables: Automaton)

  /** The state before the first argument. */
  function InitialWorld(): World
  {
    World(Defaults, [[]], [[]], [], true, [[]], Fresh())
  }

  /** The inserts of a list of alternatives in order, all with one
      identifier; `None` once one fails. */
  function InsertAll(a: Automaton, strs: seq<Text>, id: int, caseless: bool): (r: Option<Automaton>)
    requires WellFormed(a, Direct)
    ensures r.Some? ==> WellFormed(r.value, Direct)
    decreases |strs|
  {
    if strs == [] then Some(a)
    else
      InsertKeepsWellFormed(a, strs[0], id, 0, caseless, Direct);
      match Insert(a, strs[0], id, 0, caseless, Direct)
      case None => None
      case Some(b) => InsertAll(b, strs[1..], id, caseless)
  }

  //----------------------------------------------------------------------------
  // variant syntax

  /** The names compile reads from a bracketed list, from position `b` on:
      every piece ended by a comma, then the last piece when it is not
      empty. */
  function Tokens(list: Text, b: int): seq<Text>
    requires 0 <= b <= |list|
    decreases |list| - b
  {
    var c := Tokenizer.Find(list, ',', b);
    if c == |list| then (if b < |list| then [list[b..]] else [])
    else [list[b..c]] + Tokens(list, c + 1)
  }

  /** The pieces `tokenize` would make of the list, the last one dropped
      when empty. */
  function Used(pieces: seq<Text>): seq<Text>
    requires |pieces| >= 1
  {
    var last := pieces[|pieces| - 1];
    pieces[..|pieces| - 1] + (if last == [] then [] else [last])
  }

  lemma UsedCons(x: Text, rest: seq<Text>)
    requires |rest| >= 1
    ensures Used([x] + rest) == [x] + Used(rest)
  {
    var all := [x] + rest;
    assert all[|all| - 1] == rest[|rest| - 1];
    assert all[..|all| - 1] == [x] + rest[..|rest| - 1];
  }

  /** The names read are the comma-separated pieces of the list. */
  lemma {:induction false} TokensArePieces(list: Text, b: int)
    requires 0 <= b <= |list|
    ensures Tokens(list, b) == Used(Tokenizer.Pieces(list, ',', b))
    decreases |list| - b
  {
    Tokenizer.PiecesNext(list, ',', b);
    var c := Tokenizer.Find(list, ',', b);
    if c < |list| {
      TokensArePieces(list, c + 1);
      UsedCons(list[b..c], Tokenizer.Pieces(list, ',', c + 1));
    } else {
      UsedLast(list[b..]);
    }
  }

  lemma UsedLast(last: Text)
    ensures Used([last]) == if last == [] then [] else [last]
  {
    assert [last][..0] == [];
  }

  /** One token registered: the token itself when it names a variant,
      else each of its bytes as a one-letter name; `None` (a syntax error)
      when some byte names no variant. */
  function Register(names: seq<Text>, token: Text): Option<seq<Text>>
  {
    if Variants.IsVariant(token) then Some(names + [token])
    else if forall i :: 0 <= i < |token| ==> Variants.IsVariant([token[i]]) then
      Some(names + Variants.Singles(token))
    else None
  }

  /** The tokens registered in order. */
  function Registered(names: seq<Text>, tokens: seq<Text>): Option<seq<Text>>
    decreases |tokens|
  {
    if tokens == [] then Some(names)
    else match Register(names, tokens[0])
      case None => None
      case Some(more) => Registered(more, tokens[1..])
  }

  /** Registering only appends names, each of which `is_variant` accepts;
      it fails exactly when some token is neither a name nor a string of
      aliases. */
  lemma {:induction false} RegisteredNames(names: seq<Text>, tokens: seq<Text>)
    ensures var r := Registered(names, tokens);
      && (r.Some? ==> names <= r.value && forall n :: n in r.value[|names|..] ==> Variants.IsVariant(n))
      && (r.None? <==> exists t :: t in tokens && Register([], t).None?)
    decreases |tokens|
  {
    if tokens != [] {
      var t := tokens[0];
      RegisterAppends(names, t);
      assert forall u :: u in tokens <==> u == t || u in tokens[1..] by {
        assert tokens == [t] + tokens[1..];
      }
      if Register(names, t).Some? {
        var more := Register(names, t).value;
        RegisteredNames(more, tokens[1..]);
        var r := Registered(more, tokens[1..]);
        if r.Some? {
          assert r.value[|names|..] == more[|names|..] + r.value[|more|..];
        }
      }
    }
  }

  /** One token registered: names are only appended, each a variant name,
      and whether it fails does not depend on the names before. */
  lemma RegisterAppends(names: seq<Text>, t: Text)
    ensures var r := Register(names, t);
      && (r.None? <==> Register([], t).None?)
      && (r.Some? ==> names <= r.value && forall n :: n in r.value[|names|..] ==> Variants.IsVariant(n))
  {
    var r := Register(names, t);
    if r.Some? {
      if Variants.IsVariant(t) {
        assert r.value[|names|..] == [t];
      } else {
        assert r.value[|names|..] == Variants.Singles(t);
      }
    }
  }

  /** The generators the names select, run in order on the alternatives so
      far; a name with no generator is passed over, and a run that does not
      end normally ends the whole. */
  function GenerateAll(names: seq<Text>, phrase: Text, g: Variants.Generated): (r: Variants.Generated)
    ensures g.status == Ok && r.status == Fatal ==>
      (exists i :: 0 <= i < |names| && names[i] in Variants.Generators &&
         Variants.Generators[names[i]] in {Variants.Fatfinger, Variants.Thesaurus, Variants.Unicode})
    decreases |names|
  {
    if names == [] then g
    else if names[0] !in Variants.Generators then GenerateAll(names[1..], phrase, g)
    else
      var r := Variants.Produce(Variants.Generators[names[0]], g.strs, phrase, g.caseless);
      if r.status != Ok then r else GenerateAll(names[1..], phrase, r)
  }

  /** The generators only add alternatives. */
  lemma {:induction false} GenerateAllAppends(names: seq<Text>, phrase: Text, g: Variants.Generated)
    ensures var r := GenerateAll(names, phrase, g);
      r.status == Ok ==> g.strs <= r.strs
    decreases |names|
  {
    if names != [] {
      if names[0] !in Variants.Generators {
        GenerateAllAppends(names[1..], phrase, g);
      } else {
        var r := Variants.Produce(Variants.Generators[names[0]], g.strs, phrase, g.caseless);
        if r.status == Ok {
          GenerateAllAppends(names[1..], phrase, r);
        }
      }
    }
  }

  /** The alternatives of a pattern under variant syntax: none when it
      holds no `[`; a syntax error when no `]` follows it; otherwise the
      names in the brackets are registered and their generators run on the
      part before the `[`. */
  function Alternatives(sv: Text, caseless: bool): (r: Variants.Generated)
    ensures '[' !in sv ==> r == Variants.Generated(Ok, [], caseless)
    ensures r.status == Ok && r.strs != [] ==> '[' in sv && ']' in sv
  {
    var open := Tokenizer.Find(sv, '[', 0);
    if open == |sv| then Variants.Generated(Ok, [], caseless)
    else
      var close := Tokenizer.Find(sv, ']', open + 1);
      if close == |sv| then Variants.Generated(Fatal, [], caseless)
      else
        match Registered([], Tokens(sv[open + 1..close], 0))
        case None => Variants.Generated(Fatal, [], caseless)
        case Some(names) => GenerateAll(names, sv[..open], Variants.Generated(Ok, [], caseless))
  }

  /** A `[` with no `]` after it is a syntax error. */
  lemma UnclosedBracket(sv: Text, caseless: bool, open: int)
    requires 0 <= open < |sv| && sv[open] == '[' && ']' !in sv[open + 1..]
    requires forall i :: 0 <= i < open ==> sv[i] != '['
    ensures Alternatives(sv, caseless).status == Fatal
  {
  }

  /** Generators run only on the part before the first `[`, so what they
      are given holds no `[`. */
  lemma PhraseBeforeBracket(sv: Text)
    ensures var open := Tokenizer.Find(sv, '[', 0);
      '[' !in sv[..open] && (open < |sv| ==> sv == sv[..open] + ['['] + sv[open + 1..])
  {
    var open := Tokenizer.Find(sv, '[', 0);
    NotInPrefix(sv, open);
    if open < |sv| {
      SplitAround(sv, open);
    }
  }

  lemma SplitAround(s: Text, k: int)
    requires 0 <= k < |s|
    ensures s == s[..k] + [s[k]] + s[k + 1..]
  {
  }

  lemma NotInPrefix(sv: Text, open: int)
    requires 0 <= open <= |sv| && forall i :: 0 <= i < open ==> sv[i] != '['
    ensures '[' !in sv[..open]
  {
    var p := sv[..open];
    forall i | 0 <= i < |p| ensures p[i] != '[' {
      assert p[i] == sv[i];
    }
  }

  //----------------------------------------------------------------------------
  // compile and ingest

  /** `compile (sign, sv)`: the pattern inserted whole under the
      identifier `sign * (|field| - 1)`, its index in its list; then, under
      variant syntax, its alternatives, once each and in ascending order,
      under the same identifier and with the case mode the generators
      leave; the case mode is restored after. */
  function Compiled(w: World, sign: int, sv: Text): (r: (Status, World))
    requires WellFormed(w.tables, Direct)
    ensures WellFormed(r.1.tables, Direct)
    ensures r.0 == Ok ==> r.1 == w.(tables := r.1.tables)
  {
    var field := if sign == -1 then w.reject else w.accept;
    var id := sign * (|field| - 1);
    InsertKeepsWellFormed(w.tables, sv, id, 0, w.flags.caseless, Direct);
    match Insert(w.tables, sv, id, 0, w.flags.caseless, Direct)
    case None => (Undefined, w)
    case Some(t) => Varied(w.(tables := t), sv, id)
  }

  /** The variant part of compile: the alternatives, once each and in
      ascending order, inserted under the pattern's identifier and with the
      case mode the generators leave; none without variant syntax. */
  function Varied(w: World, sv: Text, id: int): (r: (Status, World))
    requires WellFormed(w.tables, Direct)
    ensures WellFormed(r.1.tables, Direct)
    ensures r.0 == Ok ==> r.1 == w.(tables := r.1.tables)
  {
    var g := if w.flags.variant then Alternatives(sv, w.flags.caseless)
             else Variants.Generated(Ok, [], w.flags.caseless);
    if g.status != Ok then (g.status, w)
    else
      match InsertAll(w.tables, Ordering.Distinct(g.strs), id, g.caseless)
      case None => (Undefined, w)
      case Some(u) => (Ok, w.(tables := u))
  }

  /** The pattern an argument stands for once the next argument arrives:
      one leading `+` or `-` stripped. */
  function Stripped(t: Text): (r: Text)
    requires t != []
    ensures r == t || (r == t[1..] && (t[0] == '+' || t[0] == '-'))
    ensures r != t ==> |r| == |t| - 1
  {
    if t[0] == '+' || t[0] == '-' then t[1..] else t
  }

  /** The held argument becomes a pattern: a reject pattern when it starts
      with `-`, an accept pattern otherwise; it is pushed on its list and
      compiled. Nothing is pushed while no argument is held. */
  function Pushed(w: World): (r: (Status, World))
    requires WellFormed(w.tables, Direct)
    ensures WellFormed(r.1.tables, Direct)
  {
    if w.target == [] then (Ok, w)
    else
      var rejecting := w.target[0] == '-';
      var candidate := Stripped(w.target);
      if |candidate| < 2 then (Fatal, w)
      else if rejecting then Compiled(w.(reject := w.reject + [candidate]), -1, candidate)
      else Compiled(w.(accept := w.accept + [candidate]), 1, candidate)
  }

  /** Whether `ingest` hands an argument to `option`: `-x`, or anything
      starting with `--`. */
  predicate OptionLike(arg: Text)
  {
    (|arg| == 2 && arg[0] == '-') || (|arg| >= 2 && arg[0] == '-' && arg[1] == '-')
  }

  /** `ingest (arg)`: an option changes the flags; any other argument is
      held, and the one held before it becomes a pattern. So the last
      argument is never a pattern: it is the path to search. */
  function Ingested(w: World, arg: Text): (r: (Status, World))
    requires WellFormed(w.tables, Direct)
    ensures WellFormed(r.1.tables, Direct)
  {
    var parsed := if OptionLike(arg) then OptionOf(w.flags, arg, |w.accept| > 1 || |w.reject| > 1) else NotOption;
    match parsed
    case Refused => (Fatal, w)
    case Handled(f) => (Ok, w.(flags := f))
    case NotOption => Held(w, arg)
  }

  /** A plain argument: what was held is pushed, and the argument held. */
  function Held(w: World, arg: Text): (r: (Status, World))
    requires WellFormed(w.tables, Direct)
    ensures WellFormed(r.1.tables, Direct)
  {
    var (status, v) := Pushed(w);
    if status != Ok then (status, v) else (Ok, v.(target := arg))
  }

  /** The arguments ingested in turn until one is refused. */
  function IngestedAll(w: World, args: seq<Text>): (r: (Status, World))
    requires WellFormed(w.tables, Direct)
    ensures WellFormed(r.1.tables, Direct)
    decreases |args|
  {
    if args == [] then (Ok, w)
    else
      var (status, v) := Ingested(w, args[0]);
      if status != Ok then (status, v) else IngestedAll(v, args[1..])
  }

  /** An argument that is not an option is held, and what was held before
      it is pushed, stripped, on the list its first byte selects; a held
      pattern shorter than two bytes is a syntax error. */
  lemma HeldThenPushed(w: World, arg: Text)
    requires WellFormed(w.tables, Direct) && !OptionLike(arg)
    ensures var r := Ingested(w, arg);
      && (w.target != [] && |Stripped(w.target)| < 2 ==> r.0 == Fatal)
      && (r.0 == Ok ==> r.1.target == arg && r.1.flags == w.flags)
      && (r.0 == Ok && w.target == [] ==> r.1 == w.(target := arg))
      && (r.0 == Ok && w.target != [] && w.target[0] == '-' ==>
            r.1.reject == w.reject + [Stripped(w.target)] && r.1.accept == w.accept)
      && (r.0 == Ok && w.target != [] && w.target[0] != '-' ==>
            r.1.accept == w.accept + [Stripped(w.target)] && r.1.reject == w.reject)
  {
  }

  /** Once a pattern has been pushed, an option-like argument is a syntax
      error. */
  lemma LateOption(w: World, arg: Text)
    requires WellFormed(w.tables, Direct) && OptionLike(arg)
    requires |w.accept| > 1 || |w.reject| > 1
    ensures Ingested(w, arg).0 == Fatal
  {
  }

  //----------------------------------------------------------------------------
  // before the search

  /** Where the search goes: nowhere (tests only), to a URL, or through the
      files under a path. */
  datatype Route = Tests | Network(url: Text) | Files(path: Text)

  datatype Launch = Launch(status: Status, world: World, route: Route)

  /** Whether the path names a URL. */
  predicate IsUrl(t: Text)
  {
    "https://" <= t || "http://" <= t || "ftp://" <= t
  }

  /** `compile ()`: with the per-pattern compile already done by ingest,
      it only clears `s_noreject` when a reject pattern exists. */
  function CompiledAll(w: World): World
  {
    if |w.reject| > 1 then w.(noreject := false) else w
  }

  /** `operator()` up to the search: the tests end the run at once;
      otherwise a path or a pattern is required; a `{...}` suffix of the
      path is split off into file name patterns; at least one pattern is
      required; then the reject flag is set, the first-byte list sorted
      with duplicates removed, and the path routed. */
  function Started(w: World): (r: Launch)
    ensures w.flags.test ==> r == Launch(Ok, w, Tests)
    ensures !w.flags.test && |w.accept| < 2 && |w.reject| < 2 ==> r.status != Ok
    ensures r.status == Ok ==> r.world.accept == w.accept && r.world.reject == w.reject
  {
    if w.flags.test then Launch(Ok, w, Tests)
    else if |w.target| < 1 && |w.accept| < 2 && |w.reject| < 2 then Launch(Fatal, w, Tests)
    else
      var (status, v) := TargetSplit(w);
      if status != Ok then Launch(status, w, Tests) else Prepared(v)
  }

  /** The `{...}` suffix of the path split off and its comma separated
      names added to the file name patterns. */
  function TargetSplit(w: World): (r: (Status, World))
    ensures r.0 != Ok ==> r.1 == w
    ensures r.0 == Ok ==> '{' !in r.1.target && r.1.target <= w.target && w.filesx <= r.1.filesx
    ensures r.1 == w.(target := r.1.target, filesx := r.1.filesx)
    ensures '{' !in w.target ==> r == (Ok, w)
  {
    var brace := Tokenizer.Find(w.target, '{', 0);
    var split :=
      if brace == |w.target| then Tokenizer.Appends([], 0)
      else Tokenizer.Tokens(w.target[brace..], "{,}");
    if split.Ends? then (split.why, w)
    else
      assert brace == |w.target| ==> w.target[..brace] == w.target && w.filesx + split.tokens == w.filesx;
      (Ok, w.(target := w.target[..brace], filesx := w.filesx + split.tokens))
  }

  /** At least one pattern required; then the reject flag set, the
      first-byte list sorted and the path routed. */
  function Prepared(v: World): (r: Launch)
    ensures r.status == Ok <==> |v.accept| >= 2 || |v.reject| >= 2
    ensures r.status != Ok ==> r.status == Fatal
    ensures r.world.accept == v.accept && r.world.reject == v.reject && r.world.target == v.target
    ensures r.status == Ok ==> Ordering.IncreasingBytes(r.world.tables.firsts) && r.world.noreject == (v.noreject && |v.reject| <= 1)
  {
    if |v.accept| < 2 && |v.reject| < 2 then Launch(Fatal, v, Tests)
    else
      var c := CompiledAll(v);
      var s := c.(tables := c.tables.(firsts := Ordering.SortedBytes(c.tables.firsts)));
      Launch(Ok, s, if IsUrl(s.target) then Network(s.target) else Files(s.target))
  }

  /** After the preparation, reject patterns are looked for exactly when
      some exist, the first-byte list is increasing and holds the same
      bytes as before, and the tables are otherwise unchanged. */
  lemma StartedPrepares(w: World)
    requires Started(w).status == Ok && !w.flags.test
    ensures var s := Started(w).world;
      && s.noreject == (w.noreject && |w.reject| <= 1)
      && Ordering.IncreasingBytes(s.tables.firsts)
      && (forall c :: c in s.tables.firsts <==> c in w.tables.firsts)
      && s.tables.cells == w.tables.cells && s.tables.sets == w.tables.sets
      && s.accept == w.accept && s.reject == w.reject
      && (|s.accept| >= 2 || |s.reject| >= 2)
  {
  }

  /** The path is split at its first `{`, and what follows is read as a
      list of file name patterns; the search goes to the part before. */
  lemma StartedRoutes(w: World)
    requires Started(w).status == Ok && !w.flags.test
    ensures var s := Started(w);
      && '{' !in s.world.target && s.world.target <= w.target
      && s.route == (if IsUrl(s.world.target) then Network(s.world.target) else Files(s.world.target))
  {
  }

  //----------------------------------------------------------------------------
  // loops of compile that touch no global

  /** The brackets found and the names in them registered: the loop over
      the commas, then the last piece when not empty. */
  method ParseNames(list: Text) returns (status: Status, names: seq<Text>)
    ensures status != Undefined
    ensures var r := Registered([], Tokens(list, 0));
      (status == Ok <==> r.Some?) && (status == Ok ==> names == r.value)
  {
    ghost var goal := Registered([], Tokens(list, 0));
    names := [];
    var b := 0;
    var comma := Tokenizer.Find(list, ',', b);
    while comma != |list|
      invariant 0 <= b <= comma <= |list| && comma == Tokenizer.Find(list, ',', b)
      invariant Registered(names, Tokens(list, b)) == goal
      decreases |list| - b
    {
      var token := list[b..comma];
      ParseStep(names, list, b);
      b := comma + 1;
      comma := Tokenizer.Find(list, ',', b);
      status, names := RegisterToken(names, token);
      if status != Ok {
        return;
      }
    }
    ParseLast(names, list, b);
    if b < |list| {
      status, names := RegisterToken(names, list[b..]);
      if status != Ok {
        return;
      }
    }
    status := Ok;
  }

  /** The next comma-terminated token of the list registered. */
  lemma ParseStep(names: seq<Text>, list: Text, b: int)
    requires 0 <= b <= |list| && Tokenizer.Find(list, ',', b) < |list|
    ensures var c := Tokenizer.Find(list, ',', b);
      Registered(names, Tokens(list, b)) ==
        match Register(names, list[b..c])
        case None => None
        case Some(more) => Registered(more, Tokens(list, c + 1))
  {
    var c := Tokenizer.Find(list, ',', b);
    TokensNext(list, b, c);
    RegisteredCons(names, list[b..c], Tokens(list, c + 1));
  }

  lemma TokensNext(list: Text, b: int, c: int)
    requires 0 <= b <= |list| && c == Tokenizer.Find(list, ',', b) && c < |list|
    ensures Tokens(list, b) == [list[b..c]] + Tokens(list, c + 1)
  {
  }

  lemma RegisteredCons(names: seq<Text>, t: Text, rest: seq<Text>)
    ensures Registered(names, [t] + rest) ==
      match Register(names, t)
      case None => None
      case Some(more) => Registered(more, rest)
  {
    assert ([t] + rest)[1..] == rest;
  }

  /** The rest of the list after the last comma, registered when not
      empty. */
  lemma ParseLast(names: seq<Text>, list: Text, b: int)
    requires 0 <= b <= |list| && Tokenizer.Find(list, ',', b) == |list|
    ensures Registered(names, Tokens(list, b)) ==
      if b < |list| then Register(names, list[b..]) else Some(names)
  {
    if b < |list| {
      assert Tokens(list, b) == [list[b..]];
      assert Tokens(list, b)[1..] == [];
    }
  }

  /** `is_variant (token) ? register_variant (...) : descramble_variants (...)`. */
  method RegisterToken(names: seq<Text>, token: Text) returns (status: Status, after: seq<Text>)
    ensures status != Undefined
    ensures var r := Register(names, token);
      (status == Ok <==> r.Some?) && (status == Ok ==> after == r.value)
  {
    if Variants.IsVariant(token) {
      var ok;
      ok, after := Variants.RegisterVariant(names, token);
      status := Ok;
    } else {
      status, after := Variants.DescrambleVariants(names, token);
    }
  }

  /** The loop over the registered names: each name that the generator
      table holds runs its generator on the alternatives so far. */
  method RunGenerators(names: seq<Text>, phrase: Text, caseless: bool) returns (g: Variants.Generated)
    ensures g == GenerateAll(names, phrase, Variants.Generated(Ok, [], caseless))
  {
    ghost var goal := GenerateAll(names, phrase, Variants.Generated(Ok, [], caseless));
    g := Variants.Generated(Ok, [], caseless);
    var i := 0;
    while i < |names|
      invariant 0 <= i <= |names| && g.status == Ok
      invariant GenerateAll(names[i..], phrase, g) == goal
    {
      var name := names[i];
      assert names[i..][1..] == names[i + 1..];
      if name in Variants.Generators {
        var r := Variants.RunGenerator(Variants.Generators[name], g.strs, phrase, g.caseless);
        if r.status != Ok {
          return r;
        }
        g := r;
      }
      i := i + 1;
    }
  }

  /** The variant part of compile up to the generated alternatives. */
  method AlternativesOf(sv: Text, caseless: bool) returns (g: Variants.Generated)
    ensures g == Alternatives(sv, caseless)
  {
    var open := Tokenizer.Find(sv, '[', 0);
    if open == |sv| {
      return Variants.Generated(Ok, [], caseless);
    }
    var close := Tokenizer.Find(sv, ']', open + 1);
    if close == |sv| {
      return Variants.Generated(Fatal, [], caseless);  // syntax: bracketed variants
    }
    var status, names := ParseNames(sv[open + 1..close]);
    if status != Ok {
      return Variants.Generated(Fatal, [], caseless);  // synopsis: bad variant
    }
    g := RunGenerators(names, sv[..open], caseless);
  }

  /** `set<string> unique` filled from the alternatives and read back. */
  method Unique(strs: seq<Text>) returns (unique: seq<Text>)
    ensures unique == Ordering.Distinct(strs)
  {
    unique := [];
    var i := 0;
    while i < |strs|
      invariant 0 <= i <= |strs| && unique == Ordering.Distinct(strs[..i])
    {
      assert strs[..i + 1][..i] == strs[..i];
      unique := Ordering.Place(unique, strs[i]);
      i := i + 1;
    }
    assert strs[..i] == strs;
  }

  //----------------------------------------------------------------------------
  // the session

  /** The globals of one run of the program, and the tables. `entries`
      records every insert, and `oneCase` whether all of them used the
      session's case mode; together they say which patterns the tables
      hold. */
  class Session {
    var caseless: bool
    var debug: nat
    var nibbles: bool
    var quicktree: bool
    var suppress: bool
    var test: bool
    var variant: bool
    var oversize: nat
    var noreject: bool
    var accept: seq<Text>
    var reject: seq<Text>
    var target: Text
    var filesx: seq<Text>
    const table: Tables.Table
    ghost var entries: seq<Correctness.Entry>
    ghost var oneCase: bool

    ghost function Settings(): Flags
      reads this
    {
      Flags(caseless, debug, nibbles, quicktree, suppress, test, variant, oversize)
    }

    ghost function Globals(): World
      reads this, table
    {
      World(Settings(), accept, reject, target, noreject, filesx, table.Model())
    }

    ghost predicate Valid()
      reads this, table
    {
      table.Valid() && table.scheme == Direct && |accept| >= 1 && |reject| >= 1
    }

    /** The tables are those the recorded inserts build from fresh tables
        in case mode `c`, up to extra bytes in the first-byte list. */
    ghost predicate ReplaysWith(c: bool)
      reads this, table
    {
      oneCase ==>
        var b := Correctness.Build(entries, c);
        && b.Some? && table.planes == b.value.cells && table.sets == b.value.sets
        && (forall x :: x in b.value.firsts ==> x in table.firsts)
    }

    ghost predicate Replays()
      reads this, table
    {
      ReplaysWith(caseless)
    }

    /** Every recorded identifier is the index of a pattern in its list:
        positive for accept, negative for reject. */
    ghost predicate Numbered()
      reads this
    {
      forall e :: e in entries ==> 0 < e.id < |accept| || 0 < -e.id < |reject|
    }

    /** Every pushed pattern was recorded under its identifier: accept
        pattern `i` as `i`, reject pattern `i` as `-i`. */
    ghost predicate Logged()
      reads this
    {
      Logs(entries, accept, 1) && Logs(entries, reject, -1)
    }

    /** The globals as initialised, and fresh tables. */
    constructor ()
      ensures Valid() && Replays() && Numbered() && Logged() && oneCase && entries == []
      ensures Globals() == InitialWorld()
    {
      caseless, debug, nibbles, quicktree := true, 0, false, false;
      suppress, test, variant, oversize := false, false, false, 1;
      noreject := true;
      accept, reject, target, filesx := [[]], [[]], [], [[]];
      table := new Tables.Table(Direct);
      entries, oneCase := [], true;
    }

    /** `option (arg)`: `handled` when the argument was an option. A bundle
        `--xyz` runs the two-byte option of each of its letters. */
    method Option(arg: Text) returns (handled: bool, status: Status)
      requires |arg| >= 1
      modifies this
      ensures var r := OptionOf(old(Settings()), arg, |accept| > 1 || |reject| > 1);
        && status == (if r.Refused? then Fatal else Ok)
        && handled == r.Handled?
        && (r.Handled? ==> Settings() == r.flags)
        && (r.NotOption? ==> Settings() == old(Settings()))
      ensures accept == old(accept) && reject == old(reject) && target == old(target)
      ensures noreject == old(noreject) && filesx == old(filesx)
      ensures entries == old(entries) && oneCase == old(oneCase)
      decreases |arg|, 1
    {
      if arg[0] != '-' {
        return false, Ok;
      }
      if |accept| > 1 || |reject| > 1 {
        return false, Fatal;  // syntax: options must precede other args
      }
      if |arg| < 2 {
        return false, Fatal;  // syntax: options must be two or more chars
      }
      if |arg| == 2 && IsDigit(arg[1]) {
        oversize := arg[1] as int - '0' as int;
        oversize := if oversize == 0 then 1 else oversize;
        return true, Ok;
      }
      var named := NamedOption(arg);
      if named {
        return true, Ok;
      }
      if arg[1] == '-' {
        status := BundleOption(arg);
        return status == Ok, status;
      }
      if |arg| == 2 {
        return false, Fatal;  // syntax: unknown arg
      }
      return false, Ok;
    }

    /** The chain of named options in `option`: `--case` or `-c`, and so
        on; `found` when the argument is one of them. */
    method NamedOption(arg: Text) returns (found: bool)
      requires |arg| >= 2 && arg[0] == '-'
      modifies this
      ensures var r := Letter(arg);
        && found == r.Some?
        && Settings() == (if found then Apply(old(Settings()), r.value) else old(Settings()))
      ensures accept == old(accept) && reject == old(reject) && target == old(target)
      ensures noreject == old(noreject) && filesx == old(filesx)
      ensures entries == old(entries) && oneCase == old(oneCase)
    {
      var opt := |arg| == 2;
      var letter := if opt then arg[1] else 0 as char;
      var named: Byte;
      if arg == "--case" || (opt && letter == 'c') {
        named := 'c';
      } else if arg == "--debug" || (opt && letter == 'd') {
        named := 'd';
      } else if arg == "--nibbles" || (opt && letter == 'n') {
        named := 'n';
      } else if arg == "--quicktree" || (opt && letter == 'q') {
        named := 'q';
      } else if arg == "--suppress" || (opt && letter == 's') {
        named := 's';
      } else if arg == "--test" || (opt && letter == 't') {
        named := 't';
      } else if arg == "--variant" || (opt && letter == 'v') {
        named := 'v';
      } else {
        return false;
      }
      assert Letter(arg) == Some(named);
      SetFlag(named);
      found := true;
    }

    /** The assignment each named option makes. */
    method SetFlag(c: Byte)
      requires c in OptionLetters
      modifies this
      ensures Settings() == Apply(old(Settings()), c)
      ensures accept == old(accept) && reject == old(reject) && target == old(target)
      ensures noreject == old(noreject) && filesx == old(filesx)
      ensures entries == old(entries) && oneCase == old(oneCase)
    {
      if c == 'c' {
        caseless := false;
      } else if c == 'd' {
        debug := debug + 1;
      } else if c == 'n' {
        nibbles := true;
      } else if c == 'q' {
        quicktree := true;
      } else if c == 's' {
        suppress := true;
      } else if c == 't' {
        test := true;
      } else {
        variant := true;
      }
    }

    /** The bundle `--xyz`: the two-byte option of each letter in turn; a
        letter outside the bundle's set is a syntax error. */
    method BundleOption(arg: Text) returns (status: Status)
      requires |arg| >= 2 && arg[0] == '-' && arg[1] == '-' && |accept| <= 1 && |reject| <= 1
      modifies this
      ensures var r := Bundle(old(Settings()), arg[2..]);
        && (status == Ok <==> r.Some?) && status != Undefined
        && (r.Some? ==> Settings() == r.value)
      ensures accept == old(accept) && reject == old(reject) && target == old(target)
      ensures noreject == old(noreject) && filesx == old(filesx)
      ensures entries == old(entries) && oneCase == old(oneCase)
      decreases |arg|, 0
    {
      var i := 2;
      while i < |arg|
        invariant 2 <= i <= |arg|
        invariant Bundle(Settings(), arg[i..]) == Bundle(old(Settings()), arg[2..])
        invariant accept == old(accept) && reject == old(reject) && target == old(target)
        invariant noreject == old(noreject) && filesx == old(filesx)
        invariant entries == old(entries) && oneCase == old(oneCase)
      {
        var letter := arg[i];
        if letter !in Bundled {
          return Fatal;  // syntax: illegal option letter
        }
        BundledLetter(Settings(), letter);
        assert arg[i..][1..] == arg[i + 1..];
        var _, _ := Option(['-', letter]);
        i := i + 1;
      }
      assert arg[i..] == [];
      status := Ok;
    }

    /** `ingest (arg)`: an option-like argument goes to `option`; any other
        argument is held in `s_target`, and the one held before it is
        pushed on the accept or reject list and compiled. */
    method Ingest(arg: Text) returns (status: Status)
      requires Valid() && Replays() && Numbered() && Logged()
      modifies this, table
      ensures Valid()
      ensures var r := Ingested(old(Globals()), arg);
        status == r.0 && (status == Ok ==> Globals() == r.1 && Replays() && Numbered() && Logged())
    {
      ghost var w := Globals();
      var minus1 := |arg| == 2 && arg[0] == '-';
      var minus2 := |arg| >= 2 && arg[0] == '-' && arg[1] == '-';
      if minus1 || minus2 {
        var handled;
        handled, status := Option(arg);
        if status != Ok {
          return;
        }
        if handled {
          NoEntriesBeforePatterns(entries, accept, reject);
          return;
        }
      }
      status := Hold(arg);
    }

    /** A plain argument: the held one pushed, then this one held. */
    method Hold(arg: Text) returns (status: Status)
      requires Valid() && Replays() && Numbered() && Logged()
      modifies this, table
      ensures Valid()
      ensures var r := Held(old(Globals()), arg);
        status == r.0 && (status == Ok ==> Globals() == r.1 && Replays() && Numbered() && Logged())
    {
      status := Push();
      if status != Ok {
        return;
      }
      target := arg;
    }

    /** The held argument, if any, pushed as a pattern and compiled. */
    method Push() returns (status: Status)
      requires Valid() && Replays() && Numbered() && Logged()
      modifies this, table
      ensures Valid()
      ensures var r := Pushed(old(Globals()));
        status == r.0 && (status == Ok ==> Globals() == r.1 && Replays() && Numbered() && Logged())
    {
      if |target| > 0 {
        var c0 := target[0];
        var rejecting := c0 == '-';
        var candidate := if c0 == '+' || c0 == '-' then target[1..] else target;
        if |candidate| < 2 {
          return Fatal;  // syntax: pattern strings must be longer than 1 byte
        }
        assert candidate == Stripped(target);
        status := Append(rejecting, candidate);
      } else {
        status := Ok;
      }
    }

    /** A pattern appended to the reject list (`rejecting`) or the accept
        list and compiled under its index there. */
    method Append(rejecting: bool, candidate: Text) returns (status: Status)
      requires Valid() && Replays() && Numbered() && Logged()
      modifies this, table
      ensures Valid()
      ensures var w := old(Globals());
        var r := if rejecting then Compiled(w.(reject := w.reject + [candidate]), -1, candidate)
                 else Compiled(w.(accept := w.accept + [candidate]), 1, candidate);
        status == r.0 && (status == Ok ==> Globals() == r.1 && Replays() && Numbered() && Logged())
    {
      ghost var before := entries;
      if rejecting {
        ghost var pats := reject;
        reject := reject + [candidate];
        assert Numbered();
        status := Compile(-1, candidate);
        LogsPushed(before, entries, pats, candidate, -1, accept, 1);
      } else {
        ghost var pats := accept;
        accept := accept + [candidate];
        assert Numbered();
        status := Compile(1, candidate);
        LogsPushed(before, entries, pats, candidate, 1, reject, -1);
      }
    }

    /** The constructor's loop: every argument ingested in turn. */
    method IngestAll(args: seq<Text>) returns (status: Status)
      requires Valid() && Replays() && Numbered() && Logged()
      modifies this, table
      ensures Valid()
      ensures var r := IngestedAll(old(Globals()), args);
        status == r.0 && (status == Ok ==> Globals() == r.1 && Replays() && Numbered() && Logged())
    {
      ghost var goal := IngestedAll(Globals(), args);
      var i := 0;
      while i < |args|
        invariant 0 <= i <= |args| && Valid() && Replays() && Numbered() && Logged()
        invariant IngestedAll(Globals(), args[i..]) == goal
      {
        assert args[i..][1..] == args[i + 1..];
        status := Ingest(args[i]);
        if status != Ok {
          return;
        }
        i := i + 1;
      }
      status := Ok;
    }

    /** `compile (sign, sv)`: insert the pattern under its identifier, then
        under variant syntax its alternatives, and restore the case mode. */
    method Compile(sign: int, sv: Text) returns (status: Status)
      requires Valid() && Replays()
      modifies this, table
      ensures Valid() && accept == old(accept) && reject == old(reject)
      ensures var r := Compiled(old(Globals()), sign, sv);
        status == r.0 && (status == Ok ==> Globals() == r.1 && Replays())
      ensures var field := if sign == -1 then reject else accept;
        var id := sign * (|field| - 1);
        && old(entries) <= entries && Correctness.Entry(sv, id) in entries
        && forall e :: e in entries ==> e in old(entries) || e.id == id
    {
      var rejecting := sign == -1;
      var field := if rejecting then reject else accept;
      var id := sign * (|field| - 1);
      var saved := caseless;
      ghost var w := Globals();
      var ok := InsertRecorded(sv, id, saved);
      ghost var recorded := entries;
      assert Correctness.Entry(sv, id) == recorded[|recorded| - 1];
      if !ok {
        return Undefined;
      }
      ghost var t := table.Model();
      assert Globals() == w.(tables := t);
      assert Compiled(w, sign, sv) == Varied(w.(tables := t), sv, id);
      status := CompileVariants(sv, id);
      assert recorded <= entries && Correctness.Entry(sv, id) == entries[|recorded| - 1];
    }

    /** The variant part of compile, and the restored case mode. */
    method CompileVariants(sv: Text, id: int) returns (status: Status)
      requires Valid() && Replays()
      modifies this, table
      ensures Valid() && accept == old(accept) && reject == old(reject)
      ensures var r := Varied(old(Globals()), sv, id);
        status == r.0 && (status == Ok ==> Globals() == r.1 && Replays())
      ensures old(entries) <= entries
      ensures forall e :: e in entries ==> e in old(entries) || e.id == id
    {
      var saved := caseless;
      var g := Variants.Generated(Ok, [], caseless);
      if variant {
        g := AlternativesOf(sv, caseless);
        if g.status != Ok {
          return g.status;
        }
      }
      var unique := Unique(g.strs);
      caseless := g.caseless;
      status := InsertAlternatives(unique, id, saved);
      caseless := saved;
    }

    /** The insert loop of compile: every alternative under the pattern's
        identifier, in the current case mode. */
    method InsertAlternatives(strs: seq<Text>, id: int, saved: bool) returns (status: Status)
      requires Valid() && ReplaysWith(saved)
      modifies this, table
      ensures Valid() && status != Fatal
      ensures var r := InsertAll(old(table.Model()), strs, id, caseless);
        (status == Ok <==> r.Some?) && (status == Ok ==> table.Model() == r.value && ReplaysWith(saved))
      ensures Globals() == old(Globals()).(tables := table.Model())
      ensures old(entries) <= entries
      ensures forall e :: e in entries ==> e in old(entries) || e.id == id
    {
      ghost var goal := InsertAll(table.Model(), strs, id, caseless);
      var i := 0;
      while i < |strs|
        invariant 0 <= i <= |strs| && Valid() && ReplaysWith(saved)
        invariant InsertAll(table.Model(), strs[i..], id, caseless) == goal
        invariant Globals() == old(Globals()).(tables := table.Model())
        invariant old(entries) <= entries
        invariant forall e :: e in entries ==> e in old(entries) || e.id == id
      {
        var ok := InsertNext(strs, i, id, saved);
        if !ok {
          return Undefined;
        }
        i := i + 1;
      }
      assert strs[i..] == [];
      status := Ok;
    }

    /** One round of that loop: the insert of `strs[i]`, after which the
        rest of the list is inserted. */
    method InsertNext(strs: seq<Text>, i: int, id: int, saved: bool) returns (ok: bool)
      requires 0 <= i < |strs| && Valid() && ReplaysWith(saved)
      modifies this, table
      ensures Valid()
      ensures var goal := InsertAll(old(table.Model()), strs[i..], id, caseless);
        if ok then goal == InsertAll(table.Model(), strs[i + 1..], id, caseless) && ReplaysWith(saved)
        else goal.None?
      ensures Globals() == old(Globals()).(tables := table.Model())
      ensures entries == old(entries) + [Correctness.Entry(strs[i], id)]
    {
      InsertAllStep(table.Model(), strs[i..], id, caseless);
      assert strs[i..][1..] == strs[i + 1..];
      ok := InsertRecorded(strs[i], id, saved);
    }

    /** One insert of compile, in the current case mode, recorded; the
        tables keep replaying the recorded inserts in mode `saved` as long
        as every insert is made in that mode. */
    method InsertRecorded(p: Text, id: int, saved: bool) returns (ok: bool)
      requires Valid() && ReplaysWith(saved)
      modifies this, table
      ensures Valid()
      ensures var r := Insert(old(table.Model()), p, id, 0, caseless, Direct);
        ok == r.Some? && (ok ==> table.Model() == r.value && ReplaysWith(saved))
      ensures Settings() == old(Settings()) && accept == old(accept) && reject == old(reject)
      ensures target == old(target) && noreject == old(noreject) && filesx == old(filesx)
      ensures entries == old(entries) + [Correctness.Entry(p, id)]
      ensures oneCase == (old(oneCase) && caseless == saved)
    {
      ghost var m := table.Model();
      ok := table.Insert(p, id, 0, caseless);
      if oneCase && caseless == saved {
        ReplayStep(entries, Correctness.Entry(p, id), saved, m);
      }
      entries := entries + [Correctness.Entry(p, id)];
      oneCase := oneCase && caseless == saved;
    }

    /** `compile (sign)`, by default `compile (0)`, which runs `compile (+1)`
        and `compile (-1)`: reject patterns present clear `s_noreject`. */
    method CompileSigned(sign: int)
      modifies this
      ensures noreject == (old(noreject) && !((sign == 0 || sign == -1) && |reject| > 1))
      ensures Settings() == old(Settings()) && accept == old(accept) && reject == old(reject)
      ensures target == old(target) && filesx == old(filesx)
      ensures entries == old(entries) && oneCase == old(oneCase)
      decreases if sign == 0 then 1 else 0
    {
      if sign == 0 {
        CompileSigned(1);
        CompileSigned(-1);
        return;
      }
      var rejecting := sign == -1;
      var size := if rejecting then |reject| else |accept|;
      if rejecting && size > 1 {
        noreject := false;
      }
    }

    /** `operator()` up to the search: see `Started`. */
    method Run() returns (status: Status, route: Route)
      requires Valid() && Replays() && Numbered() && Logged()
      modifies this, table
      ensures Valid() && Replays() && Numbered() && Logged()
      ensures var r := Started(old(Globals()));
        status == r.status && (status == Ok ==> Globals() == r.world && route == r.route)
    {
      if test {
        return Ok, Tests;  // the timing tests
      }
      if |target| < 1 && |accept| < 2 && |reject| < 2 {
        return Fatal, Tests;  // syntax: pattern(s) and directory required
      }
      status := SplitTarget();
      if status != Ok {
        return status, Tests;
      }
      status, route := Prepare();
    }

    /** The `{...}` suffix of the path split into file name patterns. */
    method SplitTarget() returns (status: Status)
      modifies this
      ensures var r := TargetSplit(old(Globals()));
        status == r.0 && (status == Ok ==> Globals() == r.1)
      ensures Settings() == old(Settings()) && accept == old(accept) && reject == old(reject)
      ensures entries == old(entries) && oneCase == old(oneCase)
    {
      var brace := Tokenizer.Find(target, '{', 0);
      if brace != |target| {
        var patterns := target[brace..];
        var split, after, _ := Tokenizer.Tokenize(filesx, patterns, "{,}");
        if split != Ok {
          return split;
        }
        target := target[..brace];
        filesx := after;
      } else {
        assert target[..brace] == target && filesx + [] == filesx;
      }
      status := Ok;
    }

    /** The checks and preparation before the search. */
    method Prepare() returns (status: Status, route: Route)
      requires Valid() && Replays() && Numbered() && Logged()
      modifies this, table
      ensures Valid() && Replays() && Numbered() && Logged()
      ensures var r := Prepared(old(Globals()));
        status == r.status && (status == Ok ==> Globals() == r.world && route == r.route)
    {
      if |accept| < 2 && |reject| < 2 {
        return Fatal, Tests;  // syntax: specify at least one accept or reject str
      }
      CompileSigned(0);
      table.SortFirsts();
      route := if IsUrl(target) then Network(target) else Files(target);
      status := Ok;
    }

    /** `track (buffer, size, filename)` on one mapped file: the search of the
        buffer, and what it writes. When every insert used the session's
        case mode and every identifier fits its 24 bits, the verdict is
        the intended one: rejected when a reject pattern occurs, else
        reported exactly when every accept pattern has a pattern with its
        identifier occurring. */
    method Track(buf: Text, path: string) returns (verdict: Scan.Verdict, output: string)
      requires Valid() && Replays() && Numbered() && Logged()
      ensures verdict == Scan.Follow(table.Model(), Direct, buf, noreject, |accept|)
      ensures output == if verdict == Scan.Reported then path + "\n" else ""
      ensures oneCase && Correctness.IdsFit(entries) && (noreject ==> |reject| <= 1) ==>
        verdict == Correctness.Expected(Correctness.Final(entries, caseless), caseless, buf, |accept|)
      ensures forall i :: 1 <= i < |accept| ==> FoldSeq(caseless, accept[i]) in Correctness.Final(entries, caseless)
      ensures forall i :: 1 <= i < |reject| ==> FoldSeq(caseless, reject[i]) in Correctness.Final(entries, caseless)
    {
      forall i | 1 <= i < |accept|
        ensures FoldSeq(caseless, accept[i]) in Correctness.Final(entries, caseless)
      {
        FinalHasEntry(entries, Correctness.Entry(accept[i], i), caseless);
      }
      forall i | 1 <= i < |reject|
        ensures FoldSeq(caseless, reject[i]) in Correctness.Final(entries, caseless)
      {
        FinalHasEntry(entries, Correctness.Entry(reject[i], -i), caseless);
      }
      verdict, output := table.Follow(buf, noreject, |accept|, path);
      if oneCase && Correctness.IdsFit(entries) && (noreject ==> |reject| <= 1) {
        Correctness.FollowDecides(entries, caseless, table.firsts, buf, noreject, |accept|);
      }
    }
  }

  /** The first insert of a list, then the rest. */
  lemma InsertAllStep(a: Automaton, strs: seq<Text>, id: int, caseless: bool)
    requires WellFormed(a, Direct) && strs != []
    ensures var r := Insert(a, strs[0], id, 0, caseless, Direct);
      && (r.Some? ==> WellFormed(r.value, Direct))
      && InsertAll(a, strs, id, caseless) == if r.None? then None else InsertAll(r.value, strs[1..], id, caseless)
  {
    InsertKeepsWellFormed(a, strs[0], id, 0, caseless, Direct);
  }

  /** Pattern `i` of a list, past the placeholder at 0, was recorded under
      the identifier `sign * i`. */
  ghost predicate Logs(entries: seq<Correctness.Entry>, pats: seq<Text>, sign: int)
  {
    forall i :: 1 <= i < |pats| ==> Correctness.Entry(pats[i], sign * i) in entries
  }

  /** Recording more inserts keeps a list logged. */
  lemma LogsGrow(before: seq<Correctness.Entry>, after: seq<Correctness.Entry>, pats: seq<Text>, sign: int)
    requires Logs(before, pats, sign) && before <= after
    ensures Logs(after, pats, sign)
  {
    forall i | 1 <= i < |pats|
      ensures Correctness.Entry(pats[i], sign * i) in after
    {
      var k :| 0 <= k < |before| && before[k] == Correctness.Entry(pats[i], sign * i);
      assert after[k] == before[k];
    }
  }

  /** A pattern pushed onto a logged list, once recorded under its index,
      leaves the list logged. */
  lemma LogsPush(entries: seq<Correctness.Entry>, pats: seq<Text>, p: Text, sign: int)
    requires Logs(entries, pats, sign) && Correctness.Entry(p, sign * |pats|) in entries
    ensures Logs(entries, pats + [p], sign)
  {
    forall i | 1 <= i < |pats| + 1
      ensures Correctness.Entry((pats + [p])[i], sign * i) in entries
    {
      if i == |pats| {
        assert (pats + [p])[i] == p;
      } else {
        assert (pats + [p])[i] == pats[i];
      }
    }
  }

  /** A recorded insert's folded pattern is a key of the dictionary the
      recorded inserts leave. */
  lemma FinalHasEntry(entries: seq<Correctness.Entry>, e: Correctness.Entry, caseless: bool)
    requires e in entries
    ensures FoldSeq(caseless, e.pattern) in Correctness.Final(entries, caseless)
  {
    var k :| 0 <= k < |entries| && entries[k] == e;
  }

  /** A push onto one list, recorded under its index, with more inserts
      recorded after: both lists stay logged. */
  lemma LogsPushed(before: seq<Correctness.Entry>, after: seq<Correctness.Entry>,
                   pats: seq<Text>, p: Text, sign: int, other: seq<Text>, otherSign: int)
    requires Logs(before, pats, sign) && Logs(before, other, otherSign) && before <= after
    requires Correctness.Entry(p, sign * (|pats + [p]| - 1)) in after
    ensures Logs(after, pats + [p], sign) && Logs(after, other, otherSign)
  {
    LogsGrow(before, after, pats, sign);
    LogsGrow(before, after, other, otherSign);
    assert |pats + [p]| - 1 == |pats|;
    LogsPush(after, pats, p, sign);
  }

  /** Entries are numbered by pattern, so before any pattern is pushed
      there are none. */
  lemma NoEntriesBeforePatterns(entries: seq<Correctness.Entry>, accept: seq<Text>, reject: seq<Text>)
    requires forall e :: e in entries ==> 0 < e.id < |accept| || 0 < -e.id < |reject|
    ensures entries == [] || |accept| > 1 || |reject| > 1
  {
    if entries != [] {
      var e := entries[0];
      assert e in entries;
    }
  }

  /** One more insert on tables that replay the recorded ones gives tables
      that replay them and the new one. */
  lemma ReplayStep(entries: seq<Correctness.Entry>, e: Correctness.Entry, c: bool, a: Automaton)
    requires WellFormed(a, Direct)
    requires var b := Correctness.Build(entries, c);
      && b.Some? && a.cells == b.value.cells && a.sets == b.value.sets
      && (forall x :: x in b.value.firsts ==> x in a.firsts)
    ensures var r := Insert(a, e.pattern, e.id, 0, c, Direct);
      var b := Correctness.Build(entries + [e], c);
      && (r.Some? <==> b.Some?)
      && (r.Some? ==> r.value.cells == b.value.cells && r.value.sets == b.value.sets
                      && (forall x :: x in b.value.firsts ==> x in r.value.firsts))
  {
    var b := Correctness.Build(entries, c).value;
    assert (entries + [e])[..|entries|] == entries;
    assert Correctness.Build(entries + [e], c) == Insert(b, e.pattern, e.id, 0, c, Direct);
    InsertOnCells(a, b, e.pattern, e.id, c);
  }

  /** An insert reads only the planes and the sets: on tables that agree on
      those it does the same, and adds the same bytes to `s_firsts`. */
  lemma InsertOnCells(a: Automaton, b: Automaton, p: Text, id: int, c: bool)
    requires WellFormed(a, Direct) && WellFormed(b, Direct)
    requires a.cells == b.cells && a.sets == b.sets
    ensures var r := Insert(a, p, id, 0, c, Direct);
      var q := Insert(b, p, id, 0, c, Direct);
      && (r.Some? <==> q.Some?)
      && (r.Some? ==> r.value.cells == q.value.cells && r.value.sets == q.value.sets
                      && r.value.firsts == a.firsts + FirstBytes(c, p[0])
                      && q.value.firsts == b.firsts + FirstBytes(c, p[0]))
  {
  }
}
