/** End-to-end behaviour of the plugin: a declaration followed by a query, the blacklist,
    the nickname gate and the `replace` command, stated over every store and then on the
    examples of the plugin's own documentation. */
module Scenarios {
  import opened Wrappers
  import opened Text
  import opened FactStore
  import opened Formatter
  import opened Handlers

  /** A `<reply>` declaration of a new term is stored without its subject and without an
      author, even when the subject is blacklisted, so any casing of the term is then
      answered with the remainder alone (collapsed on the way out). */
  lemma ReplyDeclarationThenQuery(cfg: Config, nick: string, store: Store, now: int, fmt: int -> string,
                                  subject: string, copula: string, marker: string, remainder: string,
                                  u: string)
    requires !cfg.requireNickname
    requires Strip(marker) == ReplyMarker
    requires !Exists(store, subject)
    requires Fold(u) == Fold(subject)
    ensures ShowFact(FactsMatch(cfg, nick, store, now, fmt, Declaration(subject, copula, marker, remainder)).store, u, fmt)
              == Some(Collapse(remainder))
  {
    var s := Declare(cfg, nick, store, now, subject, copula, marker, remainder);
    assert s == store + [s[|store|]];
    FindAppended(store, s[|store|], u);
    FindCaseInsensitive(store, u, subject);
  }

  /** A plain declaration of a new, non-blacklisted term stores the whole sentence with
      the speaker as author, so any casing of the term is answered with the sentence
      (collapsed at store time and again at show time), the speaker and the time. */
  lemma AuthoredDeclarationThenQuery(cfg: Config, nick: string, store: Store, now: int, fmt: int -> string,
                                     subject: string, copula: string, marker: string, remainder: string,
                                     u: string)
    requires !cfg.requireNickname
    requires Strip(marker) != ReplyMarker
    requires subject !in cfg.blacklist
    requires !Exists(store, subject)
    requires nick != ""
    requires Fold(u) == Fold(subject)
    ensures ShowFact(FactsMatch(cfg, nick, store, now, fmt, Declaration(subject, copula, marker, remainder)).store, u, fmt)
              == Some(Collapse(Collapse(subject + " " + copula + " " + remainder))
                      + " (" + nick + " on " + fmt(now) + ")")
  {
    var s := Declare(cfg, nick, store, now, subject, copula, marker, remainder);
    assert s == store + [s[|store|]];
    FindAppended(store, s[|store|], u);
    FindCaseInsensitive(store, u, subject);
  }

  /** A plain declaration whose subject is blacklisted changes nothing and says nothing. */
  lemma BlacklistedDeclarationIgnored(cfg: Config, nick: string, store: Store, now: int, fmt: int -> string,
                                      subject: string, copula: string, marker: string, remainder: string)
    requires !cfg.requireNickname
    requires Strip(marker) != ReplyMarker
    requires subject in cfg.blacklist
    ensures FactsMatch(cfg, nick, store, now, fmt, Declaration(subject, copula, marker, remainder))
              == Response(store, None)
  {
  }

  /** A declaration can never replace a known definition: whatever the marker, the store
      is unchanged when the subject is already known in any casing. */
  lemma DeclarationKeepsFirstDefinition(cfg: Config, nick: string, store: Store, now: int, fmt: int -> string,
                                        subject: string, copula: string, marker: string, remainder: string)
    requires !cfg.requireNickname
    requires Exists(store, subject)
    ensures FactsMatch(cfg, nick, store, now, fmt, Declaration(subject, copula, marker, remainder))
              == Response(store, None)
  {
  }

  // ---------------------------------------------------------------------------
  // The documented examples, with the default blacklist and no nickname gate.

  const Plain: Config := Config(DefaultBlacklist, false, "helga")

  /** The same settings with `FACTS_REQUIRE_NICKNAME` on. */
  const Gated: Config := Config(DefaultBlacklist, true, "helga")

  lemma StripReplyGroup()
    ensures Strip(" <reply> ") == ReplyMarker
  {
    var padded := " " + "<reply>" + " ";
    assert padded == " <reply> " by {
      assert |padded| == 9;
      forall k | 0 <= k < 9 ensures padded[k] == " <reply> "[k] { }
    }
    StripPadded(" ", "<reply>", " ");
  }

  lemma StripEmpty()
    ensures Strip("") != ReplyMarker
  {
    var e := Strip("");
    assert |e| == 0 by {
      var i :| 0 <= i <= 0 && StrippedAt("", e, i);
    }
  }

  /** `foo is <reply> bar` said by sduncan, then `foo?`, answers exactly `bar`: the
      author is not shown, unlike the plugin's docstring example. */
  lemma ExampleReplyMarker(now: int, fmt: int -> string)
    ensures var s := FactsMatch(Plain, "sduncan", [], now, fmt, Declaration("foo", "is", " <reply> ", "bar")).store;
            FactsMatch(Plain, "sduncan", s, now, fmt, Query("foo")).reply == Some("bar")
  {
    var s := FactsMatch(Plain, "sduncan", [], now, fmt, Declaration("foo", "is", " <reply> ", "bar")).store;
    assert ShowFact(s, "foo", fmt) == Some(Collapse("bar")) by {
      StripReplyGroup();
      ReplyDeclarationThenQuery(Plain, "sduncan", [], now, fmt, "foo", "is", " <reply> ", "bar", "foo");
    }
    assert Collapse("bar") == "bar" by {
      FooIsBar();
      CollapseFixesExactly("bar");
    }
  }

  /** For the usual sentence shape, single-spaced subject, copula and definition with the
      grammar's space in front of the definition, the query answers the sentence exactly
      as a person would write it, followed by the author and the time. */
  lemma AuthoredSentenceThenQuery(cfg: Config, nick: string, store: Store, now: int, fmt: int -> string,
                                  subject: string, copula: string, rest: string, u: string)
    requires !cfg.requireNickname
    requires subject !in cfg.blacklist
    requires !Exists(store, subject)
    requires nick != ""
    requires Fold(u) == Fold(subject)
    requires SingleSpaced(subject) && SingleSpaced(copula) && SingleSpaced(rest)
    ensures ShowFact(FactsMatch(cfg, nick, store, now, fmt, Declaration(subject, copula, "", " " + rest)).store, u, fmt)
              == Some(subject + " " + copula + " " + rest + " (" + nick + " on " + fmt(now) + ")")
  {
    StripEmpty();
    AuthoredDeclarationThenQuery(cfg, nick, store, now, fmt, subject, copula, "", " " + rest, u);
    CollapseDeclarationSentence(subject, copula, rest);
    CollapseFixesExactly(subject + " " + copula + " " + rest);
  }

  /** `foo is bar` said by sduncan to a store that does not know `foo`, then `FOO?`,
      answers `foo is bar (sduncan on <time>)`; the space the grammar leaves in front of
      the remainder is collapsed away. */
  lemma ExampleAuthored(store: Store, now: int, fmt: int -> string)
    requires !Exists(store, "foo")
    ensures var s := FactsMatch(Plain, "sduncan", store, now, fmt, Declaration("foo", "is", "", " bar")).store;
            FactsMatch(Plain, "sduncan", s, now, fmt, Query("FOO")).reply
              == Some("foo is bar (sduncan on " + fmt(now) + ")")
  {
    var s := FactsMatch(Plain, "sduncan", store, now, fmt, Declaration("foo", "is", "", " bar")).store;
    var pre := "foo" + " " + "is" + " " + "bar" + " (" + "sduncan" + " on ";
    var date := fmt(now);
    assert ShowFact(s, "FOO", fmt) == Some(pre + date + ")") by {
      FooIsBar();
      assert "foo" !in DefaultBlacklist;
      var bar := " " + "bar";
      assert bar == " bar";
      AuthoredSentenceThenQuery(Plain, "sduncan", store, now, fmt, "foo", "is", "bar", "FOO");
      assert s == FactsMatch(Plain, "sduncan", store, now, fmt, Declaration("foo", "is", "", bar)).store;
    }
    assert pre == "foo is bar (sduncan on " by {
      FooIsBar();
    }
  }

  /** `who is on first`: `who` is blacklisted, so nothing is stored and nothing said. */
  lemma ExampleBlacklisted(store: Store, now: int, fmt: int -> string)
    ensures FactsMatch(Plain, "sduncan", store, now, fmt, Declaration("who", "is", "", " on first"))
              == Response(store, None)
  {
    StripEmpty();
  }

  /** With the nickname gate on, `foo is bar` stores nothing, while `helga: foo is bar`
      does what `foo is bar` does without the gate, so `FOO?` then answers with the
      sentence that has the nickname gone from it. */
  lemma ExampleNicknameGate(now: int, fmt: int -> string)
    ensures FactsMatch(Gated, "sduncan", [], now, fmt, Declaration("foo", "is", "", " bar")).store == []
    ensures FactsMatch(Gated, "sduncan", [], now, fmt, Declaration("helga: foo", "is", "", " bar"))
              == FactsMatch(Plain, "sduncan", [], now, fmt, Declaration("foo", "is", "", " bar"))
    ensures var s := FactsMatch(Gated, "sduncan", [], now, fmt, Declaration("helga: foo", "is", "", " bar")).store;
            FactsMatch(Gated, "sduncan", s, now, fmt, Query("FOO")).reply
              == Some("foo is bar (sduncan on " + fmt(now) + ")")
  {
    assert NickRest("foo", "helga") == None;
    NickExample();
    ExampleAuthored([], now, fmt);
  }

  /** The gate removes "helga" and the ": " after it. */
  lemma NickExample()
    ensures NickRest("helga: foo", "helga") == Some("foo")
  {
    var subject := "helga: foo";
    var t := subject[5..];
    assert subject[..5] == "helga";
    assert t == ": foo";
    assert NonWordRun(t) == 2 by {
      assert t[1..] == " foo" && " foo"[1..] == "foo";
      assert NonWordRun("foo") == 0;
    }
    assert LastSpaceBefore(t, 2) == Some(1);
    assert t[2..] == "foo";
  }

  /** `replace foo` without `<with>` answers "No definition supplied." and changes nothing;
      `replace foo <with>` and `replace <with> bar` raise instead, because the joined
      text holds no " <with> " to split at. */
  lemma ExampleReplaceCommand(store: Store, now: int, acks: seq<string>, pick: nat)
    requires |acks| > 0
    ensures FactsCommand(store, "sduncan", now, acks, pick, "replace", ["foo"])
              == Ok(Response(store, Some(NoDefinition)))
    ensures FactsCommand(store, "sduncan", now, acks, pick, "replace", ["foo", "<with>"]).Err?
    ensures FactsCommand(store, "sduncan", now, acks, pick, "replace", ["<with>", "bar"]).Err?
  {
    assert "<with>" !in ["foo"];
    assert !Occurs(Join(["foo", "<with>"], " "), WithSeparator) by {
      assert Join(["foo", "<with>"], " ") == "foo <with>";
      NoWithSeparator("foo <with>");
    }
    assert !Occurs(Join(["<with>", "bar"], " "), WithSeparator) by {
      assert Join(["<with>", "bar"], " ") == "<with> bar";
      NoWithSeparator("<with> bar");
    }
  }

  /** A ten-character text whose first three characters are not spaces cannot hold the
      eight-character " <with> ". */
  lemma NoWithSeparator(s: string)
    requires |s| == 10
    requires s[0] != ' ' && s[1] != ' ' && s[2] != ' '
    ensures !Occurs(s, WithSeparator)
  {
    forall i | 0 <= i <= |s| ensures !OccursAt(s, WithSeparator, i) { }
  }

  /** Forgetting a term nobody defined still acknowledges, and leaves the store alone. */
  lemma ExampleForgetAbsent(store: Store, now: int, acks: seq<string>, pick: nat)
    requires |acks| > 0
    requires !Exists(store, "foo")
    ensures var r := FactsCommand(store, "sduncan", now, acks, pick, "forget", ["foo"]);
            r.Ok? && r.value.store == store && r.value.reply.Some? && r.value.reply.value in acks
  {
  }

  /** Text facts about the words of the documented examples. */
  lemma FooIsBar()
    ensures SingleSpaced("foo") && SingleSpaced("is") && SingleSpaced("bar")
    ensures "foo" + " " + "is" + " " + "bar" + " (" + "sduncan" + " on " == "foo is bar (sduncan on "
    ensures Fold("FOO") == Fold("foo")
    ensures " " + "bar" == " bar"
  {
    assert !HasDoubleSpace("foo") && !HasDoubleSpace("is") && !HasDoubleSpace("bar") by {
      forall i | 0 <= i < 3 ensures !DoubleSpaceAt("foo", i) && !DoubleSpaceAt("bar", i) { }
      forall i | 0 <= i < 2 ensures !DoubleSpaceAt("is", i) { }
    }
  }
}
