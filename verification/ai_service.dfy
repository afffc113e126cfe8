/** The rule-based "AI" features (backend/app/services/ai_service.py):
    habit suggestions from a fixed table, keyword mood analysis of notes,
    and the motivational quote. */
module AiService {
  import opened Collections
  import opened Text
  import opened Habits

  datatype Suggestion = Suggestion(name: string, category: Category, frequency: Frequency)

  /** How many suggestions the table holds for a category. */
  function EntryCount(c: Category): nat
  {
    if c == Work then 2 else 3
  }

  /** Entry i of the suggestion table for category c. */
  function Entry(c: Category, i: nat): (r: Suggestion)
    requires i < EntryCount(c)
    ensures r.category == c
  {
    match c
    case Health =>
      if i == 0 then Suggestion("Drink 8 glasses of water", Health, Daily)
      else if i == 1 then Suggestion("Take vitamins", Health, Daily)
      else Suggestion("Get 8 hours of sleep", Health, Daily)
    case Fitness =>
      if i == 0 then Suggestion("30-minute walk", Fitness, Daily)
      else if i == 1 then Suggestion("Stretching routine", Fitness, Daily)
      else Suggestion("Strength training", Fitness, Weekly)
    case Learning =>
      if i == 0 then Suggestion("Read for 30 minutes", Learning, Daily)
      else if i == 1 then Suggestion("Practice a new skill", Learning, Daily)
      else Suggestion("Watch educational content", Learning, Weekly)
    case MentalHealth =>
      if i == 0 then Suggestion("Meditation", MentalHealth, Daily)
      else if i == 1 then Suggestion("Journaling", MentalHealth, Daily)
      else Suggestion("Gratitude practice", MentalHealth, Daily)
    case Productivity =>
      if i == 0 then Suggestion("Plan your day", Productivity, Daily)
      else if i == 1 then Suggestion("Review weekly goals", Productivity, Weekly)
      else Suggestion("Organize workspace", Productivity, Weekly)
    case Work =>
      if i == 0 then Suggestion("Take regular breaks", Work, Daily)
      else Suggestion("Review daily tasks", Work, Daily)
  }

  /** The suggestion table for a category, in table order. */
  function Table(c: Category): (r: seq<Suggestion>)
    ensures |r| == EntryCount(c) >= 2
    ensures forall i :: 0 <= i < |r| ==> r[i] == Entry(c, i) && r[i].category == c
  {
    seq(EntryCount(c), i requires 0 <= i < EntryCount(c) => Entry(c, i))
  }

  function HabitCategory(h: Habit): Category { h.category }

  /** The first two table entries of every category, in enum order, that
      none of the user's habits belongs to. */
  function MissingCategoryPicks(hs: seq<Habit>, cats: seq<Category>): (r: seq<Suggestion>)
    ensures |r| <= 2 * |cats|
  {
    if |cats| == 0 then []
    else
      var c := cats[0];
      (if HasCategory(hs, c) then [] else Table(c)[..2]) + MissingCategoryPicks(hs, cats[1..])
  }

  /** Every pick belongs to a listed category the user has no habit in. */
  lemma {:induction false} PicksFromMissing(hs: seq<Habit>, cats: seq<Category>)
    ensures forall s :: s in MissingCategoryPicks(hs, cats) ==> s.category in cats && !HasCategory(hs, s.category)
  {
    if |cats| > 0 {
      PicksFromMissing(hs, cats[1..]);
      var c := cats[0];
      var pick := if HasCategory(hs, c) then [] else Table(c)[..2];
      assert forall i :: 0 <= i < |pick| ==> pick[i].category == c;
    }
  }

  /** Every listed category the user has no habit in contributes its first
      two entries. */
  lemma {:induction false} PicksCoverMissing(hs: seq<Habit>, cats: seq<Category>)
    ensures forall c :: c in cats && !HasCategory(hs, c) ==>
              Table(c)[0] in MissingCategoryPicks(hs, cats) && Table(c)[1] in MissingCategoryPicks(hs, cats)
  {
    if |cats| > 0 {
      PicksCoverMissing(hs, cats[1..]);
      assert forall c' :: c' in cats ==> c' == cats[0] || c' in cats[1..];
    }
  }

  /** Every pick is one of the first two entries of its category. */
  lemma {:induction false} PicksAreLeading(hs: seq<Habit>, cats: seq<Category>)
    ensures forall s :: s in MissingCategoryPicks(hs, cats) ==> s in Table(s.category)[..2]
  {
    if |cats| > 0 {
      PicksAreLeading(hs, cats[1..]);
      var c := cats[0];
      var pick := if HasCategory(hs, c) then [] else Table(c)[..2];
      assert forall i :: 0 <= i < |pick| ==> pick[i].category == c;
    }
  }

  /** The picks are the first two entries of exactly the listed categories
      the user has no habit in. */
  lemma MissingCategoryPicksSpec(hs: seq<Habit>, cats: seq<Category>)
    ensures var r := MissingCategoryPicks(hs, cats);
            && (forall s :: s in r ==> s.category in cats && !HasCategory(hs, s.category))
            && (forall c :: c in cats && !HasCategory(hs, c) ==> Table(c)[0] in r && Table(c)[1] in r)
            && (forall s :: s in r ==> s in Table(s.category)[..2])
  {
    PicksFromMissing(hs, cats);
    PicksCoverMissing(hs, cats);
    PicksAreLeading(hs, cats);
  }

  /** Lower-cased names of all the user's habits. */
  function LowerNames(hs: seq<Habit>): set<string>
  {
    set h | h in hs :: Lower(h.name)
  }

  /** The first entry of `options` whose lower-cased name the user does not
      already have. */
  function FirstNew(options: seq<Suggestion>, names: set<string>): (r: Option<Suggestion>)
    ensures r.None? <==> forall i :: 0 <= i < |options| ==> Lower(options[i].name) in names
    ensures r.Some? ==> r.value in options
    ensures r.Some? ==> exists i :: 0 <= i < |options| && options[i] == r.value && Lower(r.value.name) !in names &&
                          forall j :: 0 <= j < i ==> Lower(options[j].name) in names
  {
    if |options| == 0 then None
    else if Lower(options[0].name) !in names then Some(options[0])
    else
      var r := FirstNew(options[1..], names);
      assert r.Some? ==> exists i :: 1 <= i < |options| && options[i] == r.value && Lower(r.value.name) !in names &&
                           forall j :: 0 <= j < i ==> Lower(options[j].name) in names by {
        if r.Some? {
          var i :| 0 <= i < |options[1..]| && options[1..][i] == r.value && Lower(r.value.name) !in names &&
                   forall j :: 0 <= j < i ==> Lower(options[1..][j].name) in names;
          assert options[i + 1] == r.value;
          forall j | 0 <= j < i + 1 ensures Lower(options[j].name) in names {
            if j > 0 { assert options[j] == options[1..][j - 1]; }
          }
        }
      }
      r
  }

  /** One complementary pick for each of the given habits, in order. */
  function Complements(top: seq<Habit>, names: set<string>): (r: seq<Suggestion>)
    ensures |r| <= |top|
  {
    if |top| == 0 then []
    else
      var rest := Complements(top[1..], names);
      var pick := FirstNew(Table(top[0].category), names);
      (if pick.Some? then [pick.value] else []) + rest
  }

  /** The complements are exactly the first new entries of the given
      habits' categories. */
  lemma {:induction false} ComplementsSpec(top: seq<Habit>, names: set<string>)
    ensures var r := Complements(top, names);
            && (forall s :: s in r ==> exists h :: h in top && FirstNew(Table(h.category), names) == Some(s))
            && (forall h :: h in top && FirstNew(Table(h.category), names).Some? ==>
                  FirstNew(Table(h.category), names).value in r)
  {
    if |top| > 0 {
      var rest := Complements(top[1..], names);
      ComplementsSpec(top[1..], names);
      var pick := FirstNew(Table(top[0].category), names);
      var r := Complements(top, names);
      assert r == (if pick.Some? then [pick.value] else []) + rest;
      forall s | s in r ensures exists h :: h in top && FirstNew(Table(h.category), names) == Some(s) {
        if s in rest {
          var h :| h in top[1..] && FirstNew(Table(h.category), names) == Some(s);
          assert h in top;
        } else {
          assert top[0] in top;
        }
      }
      forall h | h in top && FirstNew(Table(h.category), names).Some?
        ensures FirstNew(Table(h.category), names).value in r
      {
        if h != top[0] {
          assert h in top[1..];
        }
      }
    }
  }

  /** The user's first three habits (all of them when fewer). */
  function Top3(hs: seq<Habit>): (r: seq<Habit>)
    ensures r <= hs && |r| == if |hs| < 3 then |hs| else 3
  {
    Take(hs, 3)
  }

  /** Every candidate before de-duplication, in the order they are added. */
  function Candidates(hs: seq<Habit>): seq<Suggestion>
  {
    MissingCategoryPicks(hs, Categories) + Complements(Top3(hs), LowerNames(hs))
  }

  /** The de-duplication key: lower-cased name and category. */
  function SuggestionKey(s: Suggestion): (string, Category)
  {
    (Lower(s.name), s.category)
  }

  const MaxSuggestions: nat := 5

  /** suggest_habits: the candidates with repeated keys dropped (the first
      occurrence kept, order preserved), stopping at five. */
  method SuggestHabits(hs: seq<Habit>) returns (out: seq<Suggestion>)
    ensures out == Take(Dedup(Candidates(hs), SuggestionKey), MaxSuggestions)
    ensures |out| <= MaxSuggestions
    ensures DistinctKeys(out, SuggestionKey)
    ensures forall s :: s in out ==> s in Candidates(hs)
  {
    out := DedupCapped(Candidates(hs), SuggestionKey, MaxSuggestions);
    var d := Dedup(Candidates(hs), SuggestionKey);
    DedupProperties(Candidates(hs), SuggestionKey);
    assert out <= d;
    forall i, j | 0 <= i < j < |out| ensures SuggestionKey(out[i]) != SuggestionKey(out[j]) {
      assert out[i] == d[i] && out[j] == d[j];
    }
  }

  /** Every suggestion comes from the table, either for a category the user
      lacks or as the first new entry for one of the first three habits. */
  lemma CandidatesFromTable(hs: seq<Habit>)
    ensures forall s :: s in Candidates(hs) ==> s in Table(s.category)
  {
    var m := MissingCategoryPicks(hs, Categories);
    var c := Complements(Top3(hs), LowerNames(hs));
    MissingCategoryPicksSpec(hs, Categories);
    ComplementsFromTable(Top3(hs), LowerNames(hs));
    forall s: Suggestion | s in m ensures s in Table(s.category) {
      assert s in Table(s.category)[..2];
    }
  }

  lemma {:induction false} ComplementsFromTable(top: seq<Habit>, names: set<string>)
    ensures forall s :: s in Complements(top, names) ==> s in Table(s.category)
  {
    if |top| > 0 {
      ComplementsFromTable(top[1..], names);
      var pick := FirstNew(Table(top[0].category), names);
      if pick.Some? {
        assert pick.value.category == top[0].category;
      }
    }
  }

  /** A user without habits is missing every category, so each contributes
      its first two entries. */
  lemma MissingPicksNone(cats: seq<Category>)
    requires |cats| > 0
    ensures MissingCategoryPicks([], cats) == Table(cats[0])[..2] + MissingCategoryPicks([], cats[1..])
  {
    assert !HasCategory([], cats[0]);
  }

  /** The first five of three leading pairs. */
  lemma FirstFiveOfPairs<T>(a: seq<T>, b: seq<T>, c: seq<T>, rest: seq<T>)
    requires |a| >= 2 && |b| >= 2 && |c| >= 2
    ensures |a[..2] + (b[..2] + (c[..2] + rest))| >= 5
    ensures (a[..2] + (b[..2] + (c[..2] + rest)))[..5] == [a[0], a[1], b[0], b[1], c[0]]
  {
  }

  /** The first five candidates for a user without habits: the first two
      health and work suggestions and the first learning one. */
  lemma NoHabitsCandidates()
    ensures |Candidates([])| >= 5
    ensures Candidates([])[..5] ==
              [Table(Health)[0], Table(Health)[1], Table(Work)[0], Table(Work)[1], Table(Learning)[0]]
  {
    var none: seq<Habit> := [];
    var rest := MissingCategoryPicks(none, Categories[3..]);
    NoHabitsPicks();
    assert Top3(none) == [];
    assert Candidates(none) == MissingCategoryPicks(none, Categories) + [];
    FirstFiveOfPairs(Table(Health), Table(Work), Table(Learning), rest);
  }

  /** Without habits, the picks start with the health, work and learning
      pairs. */
  lemma NoHabitsPicks()
    ensures MissingCategoryPicks([], Categories) ==
              Table(Health)[..2] + (Table(Work)[..2] + (Table(Learning)[..2] + MissingCategoryPicks([], Categories[3..])))
  {
    var c := Categories;
    assert c[0] == Health && c[1..][0] == Work && c[2..][0] == Learning;
    assert c[1..][1..] == c[2..] && c[2..][1..] == c[3..];
    MissingPicksNone(c);
    MissingPicksNone(c[1..]);
    MissingPicksNone(c[2..]);
  }

  /** A user without habits is offered the first two health and work
      suggestions and the first learning one. */
  lemma NoHabitsSuggestions()
    ensures Take(Dedup(Candidates([]), SuggestionKey), MaxSuggestions) ==
              [Table(Health)[0], Table(Health)[1], Table(Work)[0], Table(Work)[1], Table(Learning)[0]]
  {
    var cands := Candidates([]);
    NoHabitsCandidates();
    var firsts := cands[..5];
    DistinctFirsts(firsts);
    DedupPrefix(cands, SuggestionKey, 5, |cands|);
    assert cands[..|cands|] == cands;
  }

  lemma DistinctFirsts(xs: seq<Suggestion>)
    requires xs == [Table(Health)[0], Table(Health)[1], Table(Work)[0], Table(Work)[1], Table(Learning)[0]]
    ensures Dedup(xs, SuggestionKey) == xs
  {
    var ks := KeysOf(xs, SuggestionKey);
    assert ks[0].0[0] != ks[1].0[0];
    assert ks[2].0[0] != ks[3].0[0];
    DedupOfDistinct(xs, SuggestionKey);
  }

  datatype Sentiment = Positive | Negative | Neutral

  const PositiveKeywords: seq<string> := [
    "great", "good", "excellent", "amazing", "wonderful", "happy", "proud", "excited",
    "motivated", "energetic", "grateful", "blessed", "accomplished", "satisfied", "confident"]

  const NegativeKeywords: seq<string> := [
    "bad", "difficult", "hard", "struggled", "tired", "stressed", "anxious", "frustrated",
    "disappointed", "sad", "exhausted", "overwhelmed", "worried", "challenging"]

  function OccursIn(text: string): string -> bool
  {
    (w: string) => IsSubstring(w, text)
  }

  /** The keywords of `words` that occur in `text`, in list order, each once. */
  function Found(words: seq<string>, text: string): seq<string>
  {
    Filter(words, OccursIn(text))
  }

  /** Confidence in tenths (0.5 is 5, 0.9 is 9). */
  datatype Mood = Mood(sentiment: Sentiment, confidence: nat, keywords: seq<string>)

  const MaxKeywords: nat := 5

  /** analyze_mood_from_notes. */
  function AnalyzeMood(notes: string): (r: Mood)
    ensures notes == [] ==> r == Mood(Neutral, 0, [])
    ensures notes != [] ==>
              var pos := |Found(PositiveKeywords, Lower(notes))|;
              var neg := |Found(NegativeKeywords, Lower(notes))|;
              && (r.sentiment == Positive <==> pos > neg)
              && (r.sentiment == Negative <==> neg > pos)
              && (r.sentiment == Neutral <==> pos == neg)
              && 5 <= r.confidence <= 9
              && (r.sentiment == Neutral ==> r.confidence == 5)
              && (r.sentiment == Positive ==> r.confidence == Min(9, 5 + pos))
              && (r.sentiment == Negative ==> r.confidence == Min(9, 5 + neg))
    ensures |r.keywords| <= MaxKeywords
    ensures forall i :: 0 <= i < |r.keywords| ==>
              (r.keywords[i] in PositiveKeywords || r.keywords[i] in NegativeKeywords) && IsSubstring(r.keywords[i], Lower(notes))
  {
    if notes == [] then Mood(Neutral, 0, [])
    else
      var text := Lower(notes);
      var pos := |Found(PositiveKeywords, text)|;
      var neg := |Found(NegativeKeywords, text)|;
      var found := Found(PositiveKeywords + NegativeKeywords, text);
      var keywords := Take(found, MaxKeywords);
      assert forall i :: 0 <= i < |keywords| ==> keywords[i] == found[i];
      if pos > neg then Mood(Positive, Min(9, 5 + pos), keywords)
      else if neg > pos then Mood(Negative, Min(9, 5 + neg), keywords)
      else Mood(Neutral, 5, keywords)
  }

  function Min(a: int, b: int): int { if a < b then a else b }

  /** The keywords listed are the first five found, positives before
      negatives. */
  lemma MoodKeywordsOrder(notes: string)
    requires notes != []
    ensures AnalyzeMood(notes).keywords ==
              Take(Found(PositiveKeywords, Lower(notes)) + Found(NegativeKeywords, Lower(notes)), MaxKeywords)
  {
    FilterAppend(PositiveKeywords, NegativeKeywords, OccursIn(Lower(notes)));
  }

  lemma {:induction false} LowerIdempotent(s: string)
    ensures Lower(Lower(s)) == Lower(s)
  {
    assert forall i :: 0 <= i < |s| ==> LowerChar(LowerChar(s[i])) == LowerChar(s[i]);
  }

  /** Matching ignores case: notes and their lower-cased form get the same
      analysis. */
  lemma MoodIgnoresCase(notes: string)
    ensures AnalyzeMood(Lower(notes)) == AnalyzeMood(notes)
  {
    LowerIdempotent(notes);
  }

  datatype Quote = Quote(quote: string, author: string)

  const Quotes: seq<Quote> := [
    Quote("The secret of getting ahead is getting started.", "Mark Twain"),
    Quote("You don't have to be great to start, but you have to start to be great.", "Zig Ziglar"),
    Quote("Small steps every day lead to big results over time.", "Unknown"),
    Quote("Consistency is the key to success.", "Unknown"),
    Quote("Your habits shape your identity, and your identity shapes your habits.", "James Clear"),
    Quote("Progress, not perfection.", "Unknown"),
    Quote("The best time to plant a tree was 20 years ago. The second best time is now.", "Chinese Proverb"),
    Quote("Success is the sum of small efforts repeated day in and day out.", "Robert Collier")]

  /** get_motivational_quote, with the random choice as a parameter. */
  function MotivationalQuote(choice: nat): (r: Quote)
    ensures r in Quotes
  {
    Quotes[choice % |Quotes|]
  }

  /** Every quote of the list can be chosen: an index within the list picks
      exactly that quote. */
  lemma EveryQuoteChosen(i: nat)
    requires i < |Quotes|
    ensures MotivationalQuote(i) == Quotes[i]
  {
    assert i % |Quotes| == i;
  }
}
