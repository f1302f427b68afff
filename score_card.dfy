/**
 * The best-time record of the dot game: one score per (level, difficulty), kept at its
 * smallest time, and stored as text "level-difficulty-time" with scores separated by ';'.
 */
module ScoreCards {
  import opened Common
  import opened Text
  import opened Scores

  /** The value a score holds; the class below keeps a list of Score objects. */
  datatype Entry = Entry(level: int, difficulty: int, time: int)

  predicate Keyed(e: Entry, level: int, difficulty: int)
  {
    e.level == level && e.difficulty == difficulty
  }

  predicate HasKey(es: seq<Entry>, level: int, difficulty: int)
  {
    exists i :: 0 <= i < |es| && Keyed(es[i], level, difficulty)
  }

  /** At most one entry per (level, difficulty). */
  predicate UniqueKeys(es: seq<Entry>)
  {
    forall i, j :: 0 <= i < j < |es| ==> !Keyed(es[j], es[i].level, es[i].difficulty)
  }

  /** The index of the first entry for (level, difficulty), as the score list is searched. */
  function FirstMatch(es: seq<Entry>, level: int, difficulty: int): (r: Option<nat>)
    ensures r.None? <==> !HasKey(es, level, difficulty)
    ensures r.Some? ==> r.value < |es| && Keyed(es[r.value], level, difficulty)
    ensures r.Some? ==> forall j :: 0 <= j < r.value ==> !Keyed(es[j], level, difficulty)
  {
    if |es| == 0 then None
    else if Keyed(es[0], level, difficulty) then Some(0)
    else match FirstMatch(es[1..], level, difficulty)
      case None => None
      case Some(i) => Some(i + 1)
  }

  /** The recorded time for (level, difficulty), if there is one. */
  function BestTime(es: seq<Entry>, level: int, difficulty: int): Option<int>
  {
    match FirstMatch(es, level, difficulty)
    case None => None
    case Some(i) => Some(es[i].time)
  }

  /**
   * Recording a time: a new (level, difficulty) is appended; a known one takes the time only
   * when it is strictly smaller. The flag says whether anything changed.
   */
  function Upsert(es: seq<Entry>, level: int, difficulty: int, time: int): (seq<Entry>, bool)
  {
    match FirstMatch(es, level, difficulty)
    case None => (es + [Entry(level, difficulty, time)], true)
    case Some(i) =>
      if time < es[i].time then (es[i := Entry(level, difficulty, time)], true) else (es, false)
  }

  /** An update that reports no change leaves the list as it was; the first score of a list is always a change. */
  lemma UpsertFlag(es: seq<Entry>, level: int, difficulty: int, time: int)
    ensures !Upsert(es, level, difficulty, time).1 ==> Upsert(es, level, difficulty, time).0 == es
    ensures es == [] ==> Upsert(es, level, difficulty, time).1
  {
  }

  lemma UniqueAppend(es: seq<Entry>, e: Entry)
    requires UniqueKeys(es) && !HasKey(es, e.level, e.difficulty)
    ensures UniqueKeys(es + [e])
  {
  }

  lemma UniqueReplace(es: seq<Entry>, k: nat, e: Entry)
    requires UniqueKeys(es) && k < |es| && Keyed(es[k], e.level, e.difficulty)
    ensures UniqueKeys(es[k := e])
  {
  }

  lemma UpsertKeepsUnique(es: seq<Entry>, level: int, difficulty: int, time: int)
    requires UniqueKeys(es)
    ensures UniqueKeys(Upsert(es, level, difficulty, time).0)
  {
  }

  /**
   * Recording keeps one entry per key, leaves the key with the smaller of the two times,
   * reports a change exactly when the key was new or the time improved, and keeps every
   * other entry as it was.
   */
  lemma UpsertKeepsBest(es: seq<Entry>, level: int, difficulty: int, time: int)
    requires UniqueKeys(es)
    ensures BestTime(Upsert(es, level, difficulty, time).0, level, difficulty)
      == match BestTime(es, level, difficulty)
         case None => Some(time)
         case Some(t) => Some(if time < t then time else t)
    ensures Upsert(es, level, difficulty, time).1
      <==> (BestTime(es, level, difficulty).None? || time < BestTime(es, level, difficulty).value)
    ensures forall e :: e in es && !Keyed(e, level, difficulty) ==> e in Upsert(es, level, difficulty, time).0
    ensures forall e :: e in Upsert(es, level, difficulty, time).0 && !Keyed(e, level, difficulty) ==> e in es
  {
    UpsertKeepsUnique(es, level, difficulty, time);
    var es' := Upsert(es, level, difficulty, time).0;
    match FirstMatch(es, level, difficulty)
    case None =>
      assert es'[|es|] == Entry(level, difficulty, time);
    case Some(i) =>
      if time < es[i].time {
        assert es'[i] == Entry(level, difficulty, time);
        assert forall j :: 0 <= j < i ==> es'[j] == es[j];
        assert FirstMatch(es', level, difficulty) == Some(i);
        forall e | e in es && !Keyed(e, level, difficulty)
          ensures e in es'
        {
          var k :| 0 <= k < |es| && es[k] == e;
          assert es'[k] == e;
        }
      }
  }

  /** The text of one score. */
  function EntryText(e: Entry): string
  {
    IntToString(e.level) + "-" + IntToString(e.difficulty) + "-" + IntToString(e.time)
  }

  function Texts(es: seq<Entry>): (ts: seq<string>)
    ensures |ts| == |es| && forall i :: 0 <= i < |es| ==> ts[i] == EntryText(es[i])
  {
    seq(|es|, i requires 0 <= i < |es| => EntryText(es[i]))
  }

  /** The stored text of a score list. */
  function Serialize(es: seq<Entry>): string
  {
    Join(Texts(es), ';')
  }

  /** The score a token of the stored text describes; None where reading it would throw. */
  function ParseEntry(token: string): Option<Entry>
  {
    var data := Split(token, '-');
    if |data| < 3 then None
    else match (ParseInt(data[0], IntMin, IntMax), ParseInt(data[1], IntMin, IntMax), ParseInt(data[2], LongMin, LongMax))
      case (Some(level), Some(difficulty), Some(time)) => Some(Entry(level, difficulty, time))
      case _ => None
  }

  /** Recording the scores of the tokens in turn, starting from `es`. */
  function LoadTokens(es: seq<Entry>, tokens: seq<string>): Option<seq<Entry>>
    decreases |tokens|
  {
    if |tokens| == 0 then Some(es)
    else match ParseEntry(tokens[0])
      case None => None
      case Some(e) => LoadTokens(Upsert(es, e.level, e.difficulty, e.time).0, tokens[1..])
  }

  /** The scores a stored text holds: none for blank text, None where loading would throw. */
  function LoadEntries(stored: string): Option<seq<Entry>>
  {
    if IsBlank(stored) then Some([]) else LoadTokens([], Split(stored, ';'))
  }

  /** A score whose text reads back: level, difficulty and time non-negative and in range. */
  predicate Storable(e: Entry)
  {
    0 <= e.level <= IntMax && 0 <= e.difficulty <= IntMax && 0 <= e.time <= LongMax
  }

  lemma TextsTail(es: seq<Entry>)
    requires |es| > 0
    ensures Texts(es)[1..] == Texts(es[1..])
  {
  }

  lemma SerializeSnoc(es: seq<Entry>, e: Entry)
    ensures Serialize(es + [e]) == if |es| == 0 then EntryText(e) else Serialize(es) + ";" + EntryText(e)
  {
    assert Texts(es + [e]) == Texts(es) + [EntryText(e)];
    if |es| > 0 {
      JoinSnoc(Texts(es), EntryText(e), ';');
    }
  }

  lemma EntryTextShape(e: Entry)
    requires Storable(e)
    ensures |EntryText(e)| > 0 && IsDigit(EntryText(e)[0]) && ';' !in EntryText(e)
  {
  }

  /** The text of a storable score reads back as that score. */
  lemma EntryTextReads(e: Entry)
    requires Storable(e)
    ensures ParseEntry(EntryText(e)) == Some(e)
  {
    var l, d, t := NatToString(e.level), NatToString(e.difficulty), NatToString(e.time);
    assert EntryText(e) == Join([l, d, t], '-') by {
      assert IntToString(e.level) == l && IntToString(e.difficulty) == d && IntToString(e.time) == t;
      assert [l, d, t][1..] == [d, t];
      assert [d, t][1..] == [t];
      assert Join([d, t], '-') == d + ['-'] + t;
      assert l + "-" + d + "-" + t == l + ['-'] + (d + ['-'] + t);
    }
    assert FreeOf([l, d, t], '-');
    SplitJoin([l, d, t], '-');
    ParseRendered(e.level, IntMin, IntMax);
    ParseRendered(e.difficulty, IntMin, IntMax);
    ParseRendered(e.time, LongMin, LongMax);
  }

  /** A key absent from the list is appended. */
  lemma UpsertNew(es: seq<Entry>, e: Entry)
    requires !HasKey(es, e.level, e.difficulty)
    ensures Upsert(es, e.level, e.difficulty, e.time).0 == es + [e]
  {
  }

  /** With distinct keys, the next entry's key is not among the earlier ones. */
  lemma KeyNotBefore(acc: seq<Entry>, rest: seq<Entry>)
    requires UniqueKeys(acc + rest) && |rest| > 0
    ensures !HasKey(acc, rest[0].level, rest[0].difficulty)
  {
    forall j | 0 <= j < |acc|
      ensures !Keyed(acc[j], rest[0].level, rest[0].difficulty)
    {
      assert (acc + rest)[j] == acc[j] && (acc + rest)[|acc|] == rest[0];
    }
  }

  lemma LoadTokensStep(es: seq<Entry>, tokens: seq<string>, e: Entry)
    requires |tokens| > 0 && ParseEntry(tokens[0]) == Some(e)
    ensures LoadTokens(es, tokens) == LoadTokens(Upsert(es, e.level, e.difficulty, e.time).0, tokens[1..])
  {
  }

  /** Loading the text of a score whose key is new appends the score. */
  lemma LoadTextsStep(acc: seq<Entry>, rest: seq<Entry>)
    requires |rest| > 0 && Storable(rest[0]) && !HasKey(acc, rest[0].level, rest[0].difficulty)
    ensures LoadTokens(acc, Texts(rest)) == LoadTokens(acc + [rest[0]], Texts(rest[1..]))
  {
    var e := rest[0];
    UpsertNew(acc, e);
    TextsTail(rest);
    EntryTextReads(e);
    LoadTokensStep(acc, Texts(rest), e);
  }

  lemma {:induction false} LoadTexts(acc: seq<Entry>, rest: seq<Entry>)
    requires UniqueKeys(acc + rest)
    requires forall i :: 0 <= i < |rest| ==> Storable(rest[i])
    ensures LoadTokens(acc, Texts(rest)) == Some(acc + rest)
    decreases |rest|
  {
    if |rest| > 0 {
      var acc', rest' := acc + [rest[0]], rest[1..];
      assert acc' + rest' == acc + rest;
      assert forall i :: 0 <= i < |rest'| ==> Storable(rest'[i]) by {
        forall i | 0 <= i < |rest'|
          ensures Storable(rest'[i])
        {
          assert rest'[i] == rest[i + 1];
        }
      }
      KeyNotBefore(acc, rest);
      LoadTextsStep(acc, rest);
      LoadTexts(acc', rest');
    } else {
      assert Texts(rest) == [];
      assert acc + rest == acc;
    }
  }

  /** Storing a list of distinct, storable scores and loading the text gives the list back. */
  lemma SplitSerialized(es: seq<Entry>)
    requires |es| > 0 && forall i :: 0 <= i < |es| ==> Storable(es[i])
    ensures Split(Serialize(es), ';') == Texts(es)
  {
    var ts := Texts(es);
    forall i | 0 <= i < |es|
      ensures |ts[i]| > 0 && ';' !in ts[i]
    {
      EntryTextShape(es[i]);
    }
    SplitJoin(ts, ';');
  }

  lemma SerializedNotBlank(es: seq<Entry>)
    requires |es| > 0 && Storable(es[0])
    ensures !IsBlank(Serialize(es))
  {
    EntryTextShape(es[0]);
    JoinHead(Texts(es), ';');
  }

  lemma LoadSerialized(es: seq<Entry>)
    requires UniqueKeys(es)
    requires forall i :: 0 <= i < |es| ==> Storable(es[i])
    ensures LoadEntries(Serialize(es)) == Some(es)
  {
    if |es| > 0 {
      SerializedNotBlank(es);
      SplitSerialized(es);
      LoadTexts([], es);
      assert [] + es == es;
      assert LoadEntries(Serialize(es)) == LoadTokens([], Texts(es));
    } else {
      assert Serialize(es) == "";
    }
  }

  /** The entries a list of Score objects holds, in order. */
  function View(ss: seq<Score>): (es: seq<Entry>)
    reads ss
    ensures |es| == |ss|
    ensures forall i :: 0 <= i < |ss| ==> es[i] == Entry(ss[i].level, ss[i].difficulty, ss[i].time)
  {
    seq(|ss|, i requires 0 <= i < |ss| reads ss => Entry(ss[i].level, ss[i].difficulty, ss[i].time))
  }

  lemma ViewSnoc(ss: seq<Score>, s: Score)
    ensures View(ss + [s]) == View(ss) + [Entry(s.level, s.difficulty, s.time)]
  {
    assert (ss + [s])[..|ss|] == ss;
  }

  /** Distinct keys make distinct score objects. */
  lemma DistinctScores(ss: seq<Score>, k: nat)
    requires UniqueKeys(View(ss)) && k < |ss|
    ensures forall j :: 0 <= j < |ss| && j != k ==> ss[j] != ss[k]
  {
    var es := View(ss);
    forall j | 0 <= j < |ss| && j != k
      ensures ss[j] != ss[k]
    {
      var lo, hi := if j < k then j else k, if j < k then k else j;
      assert !Keyed(es[hi], es[lo].level, es[lo].difficulty);
      assert es[lo] == Entry(ss[lo].level, ss[lo].difficulty, ss[lo].time);
      assert es[hi] == Entry(ss[hi].level, ss[hi].difficulty, ss[hi].time);
    }
  }

  class ScoreCard {
    var scores: seq<Score>
    /** The text held for internal storage. */
    var content: string

    function Entries(): seq<Entry>
      reads this, scores
    {
      View(scores)
    }

    ghost predicate Valid()
      reads this, scores
    {
      UniqueKeys(Entries())
    }

    constructor Empty(stored: string)
      ensures scores == [] && content == stored
    {
      scores := [];
      content := stored;
    }

    /**
     * Building the card from the stored text: null where a token does not read as a score,
     * otherwise a card holding the scores the tokens record in turn. The first token always
     * records a new score, which saves, so the card's text is then its own list's text.
     */
    static method Load(stored: string) returns (card: ScoreCard?)
      ensures card == null <==> LoadEntries(stored).None?
      ensures card != null ==> fresh(card) && card.Valid() && card.Entries() == LoadEntries(stored).value
      ensures card != null ==>
        card.content == if IsBlank(stored) || |Split(stored, ';')| == 0 then stored else Serialize(card.Entries())
    {
      var c := new ScoreCard.Empty(stored);
      if !IsBlank(stored) {
        var tokens := Split(stored, ';');
        var i := 0;
        while i < |tokens|
          invariant 0 <= i <= |tokens|
          invariant fresh(c) && c.Valid()
          invariant forall s :: s in c.scores ==> fresh(s)
          invariant LoadTokens(c.Entries(), tokens[i..]) == LoadTokens([], tokens)
          invariant i == 0 ==> c.scores == [] && c.content == stored
          invariant i > 0 ==> c.content == Serialize(c.Entries())
        {
          assert tokens[i..][1..] == tokens[i + 1..];
          var ok := c.RecordToken(tokens[i]);
          if !ok {
            return null;
          }
          i := i + 1;
        }
      }
      card := c;
    }

    /**
     * One token of the stored text, as the constructor's loop reads it: the score it describes
     * is recorded as `update` records it; false where reading the token throws. Once a score is
     * recorded the text is the saved text of the list, since the first score always saves.
     */
    method RecordToken(token: string) returns (ok: bool)
      requires Valid()
      requires scores == [] || content == Serialize(Entries())
      modifies this, set s | s in scores
      ensures ok == ParseEntry(token).Some?
      ensures ok ==> Valid() && content == Serialize(Entries())
      ensures ok ==>
        var e := ParseEntry(token).value;
        Entries() == Upsert(old(Entries()), e.level, e.difficulty, e.time).0
      ensures forall s :: s in scores ==> s in old(scores) || fresh(s)
    {
      var e := ParseEntry(token);
      if e.None? {
        return false;
      }
      ghost var before := Entries();
      UpsertFlag(before, e.value.level, e.value.difficulty, e.value.time);
      var updated := Update(e.value.level, e.value.difficulty, e.value.time);
      ok := true;
    }

    /** The first score for (level, difficulty), or null. */
    method GetScore(level: int, difficulty: int) returns (score: Score?)
      ensures score == null <==> FirstMatch(Entries(), level, difficulty).None?
      ensures score != null ==> score == scores[FirstMatch(Entries(), level, difficulty).value]
    {
      var i := 0;
      while i < |scores|
        invariant 0 <= i <= |scores|
        invariant forall j :: 0 <= j < i ==> !Keyed(Entries()[j], level, difficulty)
      {
        if scores[i].level == level && scores[i].difficulty == difficulty {
          return scores[i];
        }
        i := i + 1;
      }
      return null;
    }

    method HasScore(level: int, difficulty: int) returns (found: bool)
      ensures found <==> HasKey(Entries(), level, difficulty)
    {
      var score := GetScore(level, difficulty);
      found := score != null;
    }

    /**
     * Recording a time: the entries become what Upsert gives, and the stored text is
     * rewritten exactly when something changed.
     */
    method Update(level: int, difficulty: int, time: int) returns (updated: bool)
      requires Valid()
      modifies this, set s | s in scores
      ensures Valid()
      ensures (Entries(), updated) == Upsert(old(Entries()), level, difficulty, time)
      ensures content == if updated then Serialize(Entries()) else old(content)
      ensures forall s :: s in scores ==> s in old(scores) || fresh(s)
    {
      ghost var es := Entries();
      var score := GetScore(level, difficulty);
      if score == null {
        var s := new Score(level, difficulty, time);
        ViewSnoc(scores, s);
        scores := scores + [s];
        UniqueAppend(es, Entry(level, difficulty, time));
        assert Upsert(es, level, difficulty, time) == (Entries(), true);
      } else if time < score.time {
        ghost var k := FirstMatch(es, level, difficulty).value;
        DistinctScores(scores, k);
        score.SetTime(time);
        assert Entries() == es[k := Entry(level, difficulty, time)];
        UniqueReplace(es, k, Entry(level, difficulty, time));
        assert Upsert(es, level, difficulty, time) == (Entries(), true);
      } else {
        return false;
      }
      ghost var now := Entries();
      Save();
      assert Entries() == now;
      updated := true;
    }

    /** Rewriting the stored text from the list, a ';' before every score but the first. */
    method Save()
      modifies this`content
      ensures Entries() == old(Entries())
      ensures content == Serialize(Entries())
    {
      ghost var es := Entries();
      content := "";
      var i := 0;
      while i < |scores|
        invariant 0 <= i <= |scores| && es == Entries()
        invariant content == Serialize(es[..i])
        invariant |content| > 0 <==> i > 0
      {
        var score := scores[i];
        assert es[i] == Entry(score.level, score.difficulty, score.time);
        SaveStep(es, i);
        if |content| > 0 {
          content := content + ";";
        }
        content := content + EntryText(Entry(score.level, score.difficulty, score.time));
        i := i + 1;
      }
      assert es[..i] == es;
    }
  }

  lemma SaveStep(es: seq<Entry>, i: nat)
    requires i < |es|
    ensures Serialize(es[..i + 1])
      == if i == 0 then EntryText(es[i]) else Serialize(es[..i]) + ";" + EntryText(es[i])
    ensures |Serialize(es[..i + 1])| > 0
  {
    assert es[..i + 1] == es[..i] + [es[i]];
    SerializeSnoc(es[..i], es[i]);
  }
}
