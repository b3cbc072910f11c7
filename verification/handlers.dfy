/** The plugin's entry points: `facts_match` for declarations and queries, `facts_command`
    for `forget` and `replace`, and `facts`, which picks one of them by the number of
    arguments the bot framework passed. Settings, the bot's own nickname, the clock, the
    time formatter and the random acknowledgement draw are all parameters. */
module Handlers {
  import opened Wrappers
  import opened Text
  import opened FactStore
  import opened Formatter

  /** What the bot framework captured from a line: a query (`^(.*)\?$` has one group, so
      `found[0]` is a string) or the four groups of `^(.*?) (is|are)( <reply>\s*)?(.+)$`,
      an absent optional group being the empty string. */
  datatype Capture =
    | Query(term: string)
    | Declaration(subject: string, copula: string, marker: string, remainder: string)

  /** `FACTS_WORD_BLACKLIST`, `FACTS_REQUIRE_NICKNAME` and the bot's own nickname. */
  datatype Config = Config(blacklist: seq<string>, requireNickname: bool, botNick: string)

  /** Everything the handlers read from outside: settings, the speaker, `time.time()`,
      the date formatting, `ACKS` and the random draw among them. */
  datatype Env = Env(cfg: Config, nick: string, now: int, fmt: int -> string,
                     acks: seq<string>, pick: nat)

  /** The store after a handler ran, and what the bot says (`None` is silence). */
  datatype Response = Response(store: Store, reply: Option<string>)

  /** The two shapes of call the framework makes: `(cmd, args)` for a command and
      `(found,)` for a pattern match. */
  datatype Invocation = CommandCall(cmd: string, args: seq<string>) | MatchCall(found: seq<Capture>)

  /** The default `FACTS_WORD_BLACKLIST`. */
  const DefaultBlacklist: seq<string> :=
    ["who", "what", "where", "when", "why", "how", "and", "hmm", "huh", "no", "oh", "ok",
     "right", "well", "yes"]

  const ReplyMarker: string := "<reply>"
  const WithToken: string := "<with>"
  const WithSeparator: string := " <with> "
  const NoDefinition: string := "No definition supplied."

  // ---------------------------------------------------------------------------
  // The nickname gate: `re.findall(r'^<nick>\W*\s(.*)$', subject)[0]`

  /** Length of the leading run of non-word characters (`\W*` taken greedily). */
  function NonWordRun(t: string): (j: nat)
    ensures j <= |t|
    ensures forall k :: 0 <= k < j ==> !IsWordChar(t[k])
    ensures j < |t| ==> IsWordChar(t[j])
    decreases |t|
  {
    if |t| == 0 || IsWordChar(t[0]) then 0 else 1 + NonWordRun(t[1..])
  }

  /** The last whitespace position below `j`, where the backtracking `\W*\s` settles. */
  function LastSpaceBefore(t: string, j: nat): (r: Option<nat>)
    requires j <= |t|
    ensures r.Some? ==> r.value < j && IsSpace(t[r.value])
    ensures r.Some? ==> forall m :: r.value < m < j ==> !IsSpace(t[m])
    ensures r.None? ==> forall m :: 0 <= m < j ==> !IsSpace(t[m])
    decreases j
  {
    if j == 0 then None
    else if IsSpace(t[j - 1]) then Some(j - 1)
    else LastSpaceBefore(t, j - 1)
  }

  /** `(.*)$` on the remaining text: `.` stops at a newline and `$` also matches just
      before a final newline, so the capture is the text without that newline, and any
      other newline makes the match fail. */
  function LineEnd(rest: string): (r: Option<string>)
    ensures r.Some? ==> '\n' !in r.value && (rest == r.value || rest == r.value + "\n")
    ensures r.None? ==> '\n' in rest
    ensures r.Some? <==> forall k :: 0 <= k < |rest| - 1 ==> rest[k] != '\n'
  {
    if '\n' !in rest then Some(rest)
    else if rest[|rest| - 1] == '\n' && '\n' !in rest[..|rest| - 1] then
      assert rest == rest[..|rest| - 1] + "\n";
      Some(rest[..|rest| - 1])
    else None
  }

  /** Reference reading of `^<nick>\W*\s(.*)$`: the subject is the nickname, then `m`
      non-word characters, then one whitespace character at offset `m`, then a line
      whose `(.*)$` capture is `rest`. */
  predicate GatedAt(subject: string, botNick: string, m: int, rest: string) {
    && |botNick| <= |subject| && subject[..|botNick|] == botNick
    && var t := subject[|botNick|..];
    && 0 <= m < |t|
    && (forall k :: 0 <= k <= m ==> !IsWordChar(t[k]))
    && IsSpace(t[m])
    && LineEnd(t[m + 1..]) == Some(rest)
  }

  /** The subject with the bot's nickname prefix removed, or `None` when the pattern does
      not match; the nickname is taken literally. */
  function NickRest(subject: string, botNick: string): (r: Option<string>)
    ensures r.Some? ==> exists m :: GatedAt(subject, botNick, m, r.value)
  {
    if |botNick| <= |subject| && subject[..|botNick|] == botNick then
      var t := subject[|botNick|..];
      match LastSpaceBefore(t, NonWordRun(t))
      case None => None
      case Some(k) =>
        var r := LineEnd(t[k + 1..]);
        if r.Some? then
          assert GatedAt(subject, botNick, k, r.value);
          r
        else r
    else None
  }

  /** A later start in an accepted line is accepted too, and captures no more. */
  lemma LineEndLater(t: string, a: nat, b: nat)
    requires a <= b <= |t|
    requires LineEnd(t[a..]).Some?
    ensures LineEnd(t[b..]).Some? && |LineEnd(t[b..]).value| <= |LineEnd(t[a..]).value|
  {
    var x := t[a..];
    var y := t[b..];
    forall k | 0 <= k < |y| - 1 ensures y[k] != '\n' {
      assert y[k] == x[k + b - a];
    }
    if b == a {
      assert y == x;
    }
  }

  /** Whenever the nickname pattern can match the subject, the gate lets it through, and
      it keeps the shortest rest (the greedy `\W*` puts the whitespace as late as it can). */
  lemma NickRestComplete(subject: string, botNick: string, m: int, rest: string)
    requires GatedAt(subject, botNick, m, rest)
    ensures NickRest(subject, botNick).Some?
    ensures |NickRest(subject, botNick).value| <= |rest|
  {
    var t := subject[|botNick|..];
    assert 0 <= m < |t| && IsSpace(t[m]) && LineEnd(t[m + 1..]) == Some(rest);
    NonWordRunCovers(t, m);
    var j := NonWordRun(t);
    LastSpaceReaches(t, j, m);
    var k := LastSpaceBefore(t, j).value;
    assert NickRest(subject, botNick) == LineEnd(t[k + 1..]) by {
      assert |botNick| <= |subject| && subject[..|botNick|] == botNick;
      assert LastSpaceBefore(t, NonWordRun(t)) == Some(k);
    }
    LineEndLater(t, m + 1, k + 1);
  }

  /** The backward search for whitespace below `j` finds one at or after any whitespace
      position below `j`. */
  lemma LastSpaceReaches(t: string, j: nat, m: int)
    requires 0 <= m < j <= |t| && IsSpace(t[m])
    ensures LastSpaceBefore(t, j).Some? && LastSpaceBefore(t, j).value >= m
  {
  }

  /** The greedy run of non-word characters reaches past every position whose prefix is
      made of non-word characters only. */
  lemma {:induction false} NonWordRunCovers(t: string, m: int)
    requires 0 <= m < |t|
    requires forall k :: 0 <= k <= m ==> !IsWordChar(t[k])
    ensures NonWordRun(t) > m
    decreases m
  {
    assert !IsWordChar(t[0]);
    if m > 0 {
      NonWordRunCovers(t[1..], m - 1);
    }
  }

  // ---------------------------------------------------------------------------
  // facts_match

  /** A declaration after the nickname gate. With the `<reply>` marker the remainder is
      stored as it is, without an author and without looking at the blacklist; otherwise
      the subject, copula and remainder are joined by single spaces, double spaces are
      collapsed once, the speaker becomes the author, and a blacklisted subject stores
      nothing. The subject is stored as the term. */
  function Declare(cfg: Config, nick: string, store: Store, now: int,
                   subject: string, copula: string, marker: string, remainder: string): (r: Store)
    ensures |store| <= |r| <= |store| + 1 && r[..|store|] == store
    ensures |r| > |store| ==> r[|store|].term == subject && r[|store|].setDate == Some(now)
    ensures Strip(marker) == ReplyMarker ==>
              && (|r| > |store| <==> !Exists(store, subject))
              && (|r| > |store| ==> r[|store|].fact == remainder && r[|store|].setBy == "")
    ensures Strip(marker) != ReplyMarker ==>
              && (|r| > |store| <==> subject !in cfg.blacklist && !Exists(store, subject))
              && (|r| > |store| ==> r[|store|].fact == Collapse(subject + " " + copula + " " + remainder)
                                    && r[|store|].setBy == nick)
  {
    if Strip(marker) == ReplyMarker then
      AddFact(store, subject, remainder, "", now)
    else
      // `' '.join(parts[:2] + parts[-1:])`: subject, copula and remainder
      var fact := Collapse(subject + " " + copula + " " + remainder);
      if subject in cfg.blacklist then store
      else AddFact(store, subject, fact, nick, now)
  }

  /** A declaration never puts a second record for an existing term into a store that
      had at most one per term. */
  lemma DeclarePreservesUnique(cfg: Config, nick: string, store: Store, now: int,
                               subject: string, copula: string, marker: string, remainder: string)
    ensures Unique(store) ==> Unique(Declare(cfg, nick, store, now, subject, copula, marker, remainder))
  {
    if Unique(store) {
      if Strip(marker) == ReplyMarker {
        AddPreservesUnique(store, subject, remainder, "", now);
      } else if subject !in cfg.blacklist {
        AddPreservesUnique(store, subject, Collapse(subject + " " + copula + " " + remainder), nick, now);
      }
    }
  }

  /** `facts_match`: a query shows the fact (queries are never gated); a declaration is
      gated on the bot's nickname when configured, then handed to `Declare`, and is
      always answered with silence. */
  function FactsMatch(cfg: Config, nick: string, store: Store, now: int, fmt: int -> string,
                      found: Capture): (r: Response)
    ensures found.Query? ==> r.store == store
    ensures found.Query? ==> r.reply == ShowFact(store, found.term, fmt)
    ensures found.Query? ==> (r.reply.None? <==> !Exists(store, found.term))
    ensures found.Declaration? ==> r.reply.None?
    ensures r.store == store || (|r.store| == |store| + 1 && r.store[..|store|] == store)
    ensures Unique(store) ==> Unique(r.store)
    ensures found.Declaration? && cfg.requireNickname && NickRest(found.subject, cfg.botNick).None? ==>
              r.store == store
    ensures found.Declaration? && !cfg.requireNickname ==>
              r.store == Declare(cfg, nick, store, now, found.subject, found.copula, found.marker, found.remainder)
    ensures found.Declaration? && cfg.requireNickname && NickRest(found.subject, cfg.botNick).Some? ==>
              r.store == Declare(cfg, nick, store, now, NickRest(found.subject, cfg.botNick).value,
                                 found.copula, found.marker, found.remainder)
  {
    match found
    case Query(term) => Response(store, ShowFact(store, term, fmt))
    case Declaration(subject, copula, marker, remainder) =>
      var gated := if cfg.requireNickname then NickRest(subject, cfg.botNick) else Some(subject);
      if gated.None? then Response(store, None)
      else
        DeclarePreservesUnique(cfg, nick, store, now, gated.value, copula, marker, remainder);
        Response(Declare(cfg, nick, store, now, gated.value, copula, marker, remainder), None)
  }

  /** Behind the nickname gate, a declaration whose subject passes it does exactly what
      the same declaration with the captured rest as subject does without the gate. */
  lemma GatedDeclarationActsOnRest(cfg: Config, nick: string, store: Store, now: int, fmt: int -> string,
                                   subject: string, copula: string, marker: string, remainder: string,
                                   rest: string)
    requires cfg.requireNickname && NickRest(subject, cfg.botNick) == Some(rest)
    ensures FactsMatch(cfg, nick, store, now, fmt, Declaration(subject, copula, marker, remainder))
              == FactsMatch(cfg.(requireNickname := false), nick, store, now, fmt,
                            Declaration(rest, copula, marker, remainder))
  {
  }

  // ---------------------------------------------------------------------------
  // facts_command

  /** `forget`: the arguments joined with single spaces are the term to forget. */
  function ForgetCommand(store: Store, acks: seq<string>, pick: nat, args: seq<string>): (r: Response)
    requires |acks| > 0
    ensures r.reply.Some? && r.reply.value in acks
    ensures !Exists(r.store, Join(args, " "))
    ensures !Exists(store, Join(args, " ")) ==> r.store == store
    ensures forall u :: Fold(u) != Fold(Join(args, " ")) ==> Find(r.store, u) == Find(store, u)
    ensures Unique(store) ==> Unique(r.store)
  {
    var a := ForgetFact(store, Join(args, " "), acks, pick);
    RemovePreservesUnique(store, Join(args, " "));
    Response(a.store, Some(a.ack))
  }

  /** `replace` once `<with>` is among the arguments: the joined text is split at its
      first " <with> " into term and fact, which replace the definition with the speaker
      as author. When the joined text holds no " <with> " (the `<with>` argument is first
      or last and no other sits between two arguments), unpacking the single piece
      raises `ValueError`. */
  function ReplaceCommand(store: Store, nick: string, now: int, acks: seq<string>, pick: nat,
                          args: seq<string>): (r: Result<Response>)
    requires |acks| > 0
    ensures r.Err? <==> !Occurs(Join(args, " "), WithSeparator)
    ensures r.Ok? ==> r.value.reply.Some? && r.value.reply.value in acks
    ensures r.Ok? ==>
              var all := Join(args, " ");
              exists i :: 0 <= i <= |all| && FirstAt(all, WithSeparator, i)
                          && Find(r.value.store, all[..i])
                               == Some(Record(all[..i], all[i + |WithSeparator|..], nick, Some(now)))
                          && (forall u :: Fold(u) != Fold(all[..i]) ==> Find(r.value.store, u) == Find(store, u))
    ensures r.Ok? && Unique(store) ==> Unique(r.value.store)
  {
    var all := Join(args, " ");
    var pieces := SplitOnce(all, WithSeparator);
    if |pieces| != 2 then Err("ValueError")
    else
      var term := pieces[0];
      var fact := pieces[1];
      var a := ReplaceFact(store, term, fact, nick, now, acks, pick);
      ReplacePreservesUnique(store, term, fact, nick, now, acks, pick);
      var i := |term|;
      assert FirstAt(all, WithSeparator, i);
      assert all[..i] == term && all[i + |WithSeparator|..] == fact by {
        assert all == term + WithSeparator + fact by {
          assert Join(pieces, WithSeparator) == all;
        }
      }
      Ok(Response(a.store, Some(a.ack)))
  }

  /** `facts_command`: `forget` and `replace` as above; `replace` without `<with>` as one
      of the arguments answers "No definition supplied."; other commands answer nothing. */
  function FactsCommand(store: Store, nick: string, now: int, acks: seq<string>, pick: nat,
                        cmd: string, args: seq<string>): (r: Result<Response>)
    requires |acks| > 0
    ensures cmd != "forget" && cmd != "replace" ==> r == Ok(Response(store, None))
    ensures cmd == "forget" ==> r == Ok(ForgetCommand(store, acks, pick, args))
    ensures cmd == "replace" && WithToken !in args ==> r == Ok(Response(store, Some(NoDefinition)))
    ensures cmd == "replace" && WithToken in args ==> r == ReplaceCommand(store, nick, now, acks, pick, args)
    ensures r.Ok? && Unique(store) ==> Unique(r.value.store)
  {
    if cmd == "forget" then Ok(ForgetCommand(store, acks, pick, args))
    else if cmd == "replace" then
      if WithToken !in args then Ok(Response(store, Some(NoDefinition)))
      else ReplaceCommand(store, nick, now, acks, pick, args)
    else Ok(Response(store, None))
  }

  /** A `replace` whose `<with>` argument has an argument on each side never fails. */
  lemma ReplaceInnerWithSucceeds(store: Store, nick: string, now: int, acks: seq<string>, pick: nat,
                                 args: seq<string>, i: int)
    requires |acks| > 0
    requires 0 < i < |args| - 1 && args[i] == WithToken
    ensures FactsCommand(store, nick, now, acks, pick, "replace", args).Ok?
  {
    var all := Join(args, " ");
    JoinAround(args, " ", i);
    var pre := Join(args[..i], " ");
    assert all == pre + " " + WithToken + " " + Join(args[i + 1..], " ");
    assert all[|pre|..|pre| + |WithSeparator|] == WithSeparator;
    assert OccursAt(all, WithSeparator, |pre|);
  }

  // ---------------------------------------------------------------------------
  // facts

  /** `facts`: a two-argument call is a command, a one-argument call a match on
      `found[0]`; an empty match list raises `IndexError`. */
  function Facts(env: Env, store: Store, inv: Invocation): (r: Result<Response>)
    requires |env.acks| > 0
    ensures r.Err? ==> (inv.MatchCall? && |inv.found| == 0) || (inv.CommandCall? && inv.cmd == "replace")
    ensures inv.MatchCall? ==> (r.Err? <==> |inv.found| == 0)
    ensures r.Ok? && Unique(store) ==> Unique(r.value.store)
    ensures inv.MatchCall? && |inv.found| > 0 && inv.found[0].Query? ==> r.Ok? && r.value.store == store
    ensures inv.MatchCall? && |inv.found| > 0 ==>
              r == Ok(FactsMatch(env.cfg, env.nick, store, env.now, env.fmt, inv.found[0]))
    ensures inv.CommandCall? ==>
              r == FactsCommand(store, env.nick, env.now, env.acks, env.pick, inv.cmd, inv.args)
    ensures inv.CommandCall? && inv.cmd == "forget" ==> r.Ok? && !Exists(r.value.store, Join(inv.args, " "))
  {
    match inv
    case CommandCall(cmd, args) => FactsCommand(store, env.nick, env.now, env.acks, env.pick, cmd, args)
    case MatchCall(found) =>
      if |found| == 0 then Err("IndexError")
      else Ok(FactsMatch(env.cfg, env.nick, store, env.now, env.fmt, found[0]))
  }
}
