/** `show_fact`: look a term up and render the record as the reply text. */
module Formatter {
  import opened Wrappers
  import opened Text
  import opened FactStore

  /** The reply for one record. The stored fact is first collapsed (older facts were
      saved with double spaces); an unauthored record shows the fact alone, a legacy
      record without a timestamp shows `fact (author)`, and any other record shows
      `fact (author on <time>)`. The time zone and `strftime` pattern live in `fmt`. */
  function Render(rec: Record, fmt: int -> string): (r: string)
    ensures Collapse(rec.fact) <= r
    ensures r == Collapse(rec.fact) <==> rec.setBy == ""
    ensures rec.setBy != "" ==>
              var n := |Collapse(rec.fact)|;
              && n + |rec.setBy| + 3 <= |r|
              && r[n..n + 2] == " (" && r[n + 2..n + 2 + |rec.setBy|] == rec.setBy
              && r[|r| - 1] == ')'
    ensures rec.setBy != "" && rec.setDate.None? ==> |r| == |Collapse(rec.fact)| + |rec.setBy| + 3
    ensures rec.setBy != "" && rec.setDate.Some? ==>
              var n := |Collapse(rec.fact)| + 2 + |rec.setBy|;
              r[n..|r| - 1] == " on " + fmt(rec.setDate.value)
  {
    var fact := Collapse(rec.fact);
    if rec.setBy == "" then fact
    else match rec.setDate
      case None => fact + " (" + rec.setBy + ")"
      case Some(d) =>
        var head := fact + " (" + rec.setBy;
        var r := head + " on " + fmt(d) + ")";
        assert r[..|head|] == head && r[|head|..|r| - 1] == " on " + fmt(d);
        assert head[..|fact|] == fact && head[|fact|..|fact| + 2] == " (";
        r
  }

  /** `show_fact(term)`: the rendering of the first record matching the term, or `None`.
      It only reads the store. */
  function ShowFact(store: Store, term: string, fmt: int -> string): (r: Option<string>)
    ensures r.None? <==> !Exists(store, term)
    ensures r.Some? ==> exists i :: 0 <= i < |store| && Matches(store[i], term) && r.value == Render(store[i], fmt)
  {
    match Find(store, term)
    case None => None
    case Some(rec) => Some(Render(rec, fmt))
  }

  /** Every casing of a term shows the same reply. */
  lemma ShowCaseInsensitive(store: Store, t1: string, t2: string, fmt: int -> string)
    requires Fold(t1) == Fold(t2)
    ensures ShowFact(store, t1, fmt) == ShowFact(store, t2, fmt)
  {
    FindCaseInsensitive(store, t1, t2);
  }

  /** Once a term is forgotten, no casing of it shows anything. */
  lemma ShowAfterForget(store: Store, term: string, acks: seq<string>, pick: nat, u: string, fmt: int -> string)
    requires |acks| > 0
    requires Fold(u) == Fold(term)
    ensures ShowFact(ForgetFact(store, term, acks, pick).store, u, fmt) == None
  {
  }

  /** After a replace, every casing of the term shows the new definition: alone when the
      author is empty, otherwise with the author and the time of the replace. */
  lemma ShowAfterReplace(store: Store, term: string, fact: string, author: string, now: int,
                         acks: seq<string>, pick: nat, u: string, fmt: int -> string)
    requires |acks| > 0
    requires Fold(u) == Fold(term)
    ensures ShowFact(ReplaceFact(store, term, fact, author, now, acks, pick).store, u, fmt)
              == Some(if author == "" then Collapse(fact)
                      else Collapse(fact) + " (" + author + " on " + fmt(now) + ")")
  {
    ReplaceLookup(store, term, fact, author, now, acks, pick, u);
  }
}
