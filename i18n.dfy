/** Translation of string ids for a user: the terms of an id come from the
    user's language or else from the defaults, and when an id has several
    terms the user's formality and then gender choose among them by the
    words in each term's context. Loading the resource files is outside the
    model; their parsed content is. */
module I18n {
  import opened Wrappers
  import JavaText
  import opened ClientUser

  /** A translation with the context words it is meant for. */
  datatype Term = Term(context: set<string>, text: string)

  /** An item of a strings file, as read from its map. */
  datatype Entry = Entry(term: string, definition: string, context: Option<string>)

  const FORMALITIES: seq<string> := ["formal", "informal"]

  /** The characters of the regular expression class `\s`. */
  predicate IsSpace(c: char) {
    c == ' ' || 9 <= c as int <= 13
  }

  predicate IsWord(w: string) {
    |w| > 0 && forall i :: 0 <= i < |w| ==> !IsSpace(w[i])
  }

  /** `s.split("\\s+")` for a string that does not start with white space:
      its maximal runs of other characters. */
  function Split(s: string): (r: seq<string>)
    ensures forall k :: 0 <= k < |r| ==> IsWord(r[k])
    ensures |s| > 0 && !IsSpace(s[0]) ==> |r| > 0 && IsWord(r[0]) && r[0][0] == s[0]
    decreases |s|
  {
    if |s| == 0 then []
    else if IsSpace(s[0]) then Split(s[1..])
    else if |s| == 1 || IsSpace(s[1]) then [[s[0]]] + Split(s[1..])
    else
      var rest := Split(s[1..]);
      [[s[0]] + rest[0]] + rest[1..]
  }

  /** The words joined by single spaces. */
  function Join(ws: seq<string>): string {
    if |ws| == 0 then ""
    else if |ws| == 1 then ws[0]
    else ws[0] + " " + Join(ws[1..])
  }

  /** A word followed by nothing or by white space splits off whole. */
  lemma {:induction false} SplitWord(w: string, t: string)
    requires IsWord(w)
    requires |t| == 0 || IsSpace(t[0])
    ensures Split(w + t) == [w] + Split(t)
    decreases |w|
  {
    var s := w + t;
    if |w| == 1 {
      assert s[1..] == t && [s[0]] == w;
      assert |t| > 0 ==> s[1] == t[0];
    } else {
      assert s[1..] == w[1..] + t;
      SplitWord(w[1..], t);
      assert [s[0]] + w[1..] == w;
    }
  }

  /** Splitting undoes joining. */
  lemma {:induction false} SplitJoin(ws: seq<string>)
    requires forall k :: 0 <= k < |ws| ==> IsWord(ws[k])
    ensures Split(Join(ws)) == ws
    decreases |ws|
  {
    if |ws| == 1 {
      SplitWord(ws[0], "");
      assert ws[0] + "" == ws[0];
    } else if |ws| > 1 {
      var t := " " + Join(ws[1..]);
      SplitWord(ws[0], t);
      assert ws[0] + " " + Join(ws[1..]) == ws[0] + t;
      assert t[1..] == Join(ws[1..]);
      SplitJoin(ws[1..]);
      assert [ws[0]] + ws[1..] == ws;
    }
  }

  /** `parseContext`: the set of white-space separated words; a null or
      blank string gives the empty set. */
  function ParseContext(s: Option<string>): (r: set<string>)
    ensures s.None? || JavaText.Trim(s.value) == [] ==> r == {}
    ensures forall w :: w in r ==> IsWord(w)
  {
    if s.None? then {}
    else
      var t := JavaText.Trim(s.value);
      if t == [] then {} else set k | 0 <= k < |Split(t)| :: Split(t)[k]
  }

  /** Words of printable characters joined by spaces parse back to those
      words. */
  lemma ParseContextJoin(ws: seq<string>)
    requires |ws| > 0
    requires forall k :: 0 <= k < |ws| ==> IsWord(ws[k]) && !JavaText.TrimmedChar(ws[k][0]) &&
                                           !JavaText.TrimmedChar(ws[k][|ws[k]| - 1])
    ensures ParseContext(Some(Join(ws))) == set k | 0 <= k < |ws| :: ws[k]
  {
    JoinEnds(ws);
    SplitJoin(ws);
  }

  lemma {:induction false} JoinEnds(ws: seq<string>)
    requires |ws| > 0
    requires forall k :: 0 <= k < |ws| ==> IsWord(ws[k]) && !JavaText.TrimmedChar(ws[k][0]) &&
                                           !JavaText.TrimmedChar(ws[k][|ws[k]| - 1])
    ensures |Join(ws)| > 0 && |ws[0]| > 0 && Join(ws)[0] == ws[0][0]
    ensures |ws[|ws| - 1]| > 0 && Join(ws)[|Join(ws)| - 1] == ws[|ws| - 1][|ws[|ws| - 1]| - 1]
    decreases |ws|
  {
    if |ws| > 1 {
      JoinEnds(ws[1..]);
    }
  }

  /** Whether a term's context holds none of the given words. */
  predicate Keeps(drops: seq<string>, t: Term) {
    forall w :: w in drops ==> w !in t.context
  }

  /** The terms whose context holds none of the words, in their order. */
  function Without(terms: seq<Term>, drops: seq<string>): (r: seq<Term>)
    ensures |r| <= |terms|
    ensures forall t :: t in r <==> t in terms && Keeps(drops, t)
    decreases |terms|
  {
    if |terms| == 0 then []
    else
      var last := terms[|terms| - 1];
      Without(terms[..|terms| - 1], drops) + (if Keeps(drops, last) then [last] else [])
  }

  /** The first element of a filtered list is the first term that passes. */
  lemma {:induction false} WithoutFirst(terms: seq<Term>, drops: seq<string>, i: int)
    requires 0 <= i < |terms| && Keeps(drops, terms[i])
    requires forall j :: 0 <= j < i ==> !Keeps(drops, terms[j])
    ensures |Without(terms, drops)| > 0 && Without(terms, drops)[0] == terms[i]
    decreases |terms|
  {
    var init := terms[..|terms| - 1];
    if i < |terms| - 1 {
      WithoutFirst(init, drops, i);
    } else {
      WithoutNone(init, drops);
    }
  }

  /** Nothing passes when no term does. */
  lemma {:induction false} WithoutNone(terms: seq<Term>, drops: seq<string>)
    requires forall j :: 0 <= j < |terms| ==> !Keeps(drops, terms[j])
    ensures Without(terms, drops) == []
    decreases |terms|
  {
    if |terms| > 0 {
      WithoutNone(terms[..|terms| - 1], drops);
    }
  }

  /** Filtering a list with one more term at the end. */
  lemma WithoutSnoc(terms: seq<Term>, x: Term, drops: seq<string>)
    ensures Without(terms + [x], drops) == Without(terms, drops) + (if Keeps(drops, x) then [x] else [])
  {
    assert (terms + [x])[..|terms|] == terms;
  }

  /** Filtering twice is filtering by both lists of words. */
  lemma {:induction false} WithoutTwice(terms: seq<Term>, a: seq<string>, b: seq<string>)
    ensures Without(Without(terms, a), b) == Without(terms, a + b)
    decreases |terms|
  {
    if |terms| > 0 {
      var init := terms[..|terms| - 1];
      var last := terms[|terms| - 1];
      assert terms == init + [last];
      WithoutTwice(init, a, b);
      WithoutSnoc(init, last, a);
      WithoutSnoc(init, last, a + b);
      if Keeps(a, last) {
        WithoutSnoc(Without(init, a), last, b);
      } else {
        assert Without(init, a) + [] == Without(init, a);
      }
    }
  }

  /** The context word a formality excludes: a null or unknown formality
      is formal, which excludes "informal"; informal excludes "formal". */
  function FormalityDrop(formality: Option<string>): (r: string)
    ensures r == "formal" <==> formality.Some? && JavaText.ToLower(formality.value) == "informal"
    ensures r == "formal" || r == "informal"
  {
    var f := if formality.None? then "formal"
             else if JavaText.ToLower(formality.value) in FORMALITIES then JavaText.ToLower(formality.value)
             else "formal";
    if f == "formal" then "informal" else "formal"
  }

  /** The context words a gender excludes; a null gender is MALE. */
  function GenderDrops(gender: Option<Gender>): seq<string> {
    match gender
    case None => ["female_addressee"]
    case Some(Male) => ["female_addressee"]
    case Some(Female) => ["male_addressee"]
    case Some(OtherGender) => []
  }

  /** `filterFormality`. */
  method FilterFormality(terms: seq<Term>, formality: Option<string>) returns (result: seq<Term>)
    ensures result == Without(terms, [FormalityDrop(formality)])
  {
    var f: string;
    if formality.None? {
      f := "formal";
    } else {
      f := JavaText.ToLower(formality.value);
      if f !in FORMALITIES {
        f := "formal";
      }
    }
    result := [];
    for i := 0 to |terms|
      invariant result == Without(terms[..i], [FormalityDrop(formality)])
    {
      assert terms[..i + 1][..i] == terms[..i];
      var term := terms[i];
      if f == "formal" && "informal" in term.context {
        continue;
      }
      if f == "informal" && "formal" in term.context {
        continue;
      }
      result := result + [term];
    }
    assert terms[..|terms|] == terms;
  }

  /** `filterGender`. */
  method FilterGender(terms: seq<Term>, gender: Option<Gender>) returns (result: seq<Term>)
    ensures result == Without(terms, GenderDrops(gender))
  {
    var g := if gender.None? then Male else gender.value;
    result := [];
    for i := 0 to |terms|
      invariant result == Without(terms[..i], GenderDrops(gender))
    {
      assert terms[..i + 1][..i] == terms[..i];
      var term := terms[i];
      if g == Male && "female_addressee" in term.context {
        continue;
      }
      if g == Female && "male_addressee" in term.context {
        continue;
      }
      result := result + [term];
    }
    assert terms[..|terms|] == terms;
  }

  /** The term `findPreferredTerm` picks: a single term at once; else the
      one term of the user's formality if there is exactly one; else the
      first of those (or of all terms, if none has the formality) that
      suits the gender, or the first of them if none does. */
  function Preferred(terms: seq<Term>, formality: Option<string>, gender: Option<Gender>): (r: Term)
    requires |terms| > 0
    ensures r in terms
    ensures |terms| == 1 ==> r == terms[0]
    ensures |terms| > 1 && |Without(terms, [FormalityDrop(formality)])| > 0 ==> Keeps([FormalityDrop(formality)], r)
  {
    if |terms| == 1 then terms[0]
    else
      var filtered := Without(terms, [FormalityDrop(formality)]);
      if |filtered| == 1 then filtered[0]
      else
        var before := if |filtered| > 0 then filtered else terms;
        var byGender := Without(before, GenderDrops(gender));
        if |byGender| == 0 then before[0] else byGender[0]
  }

  /** When more than one term has the user's formality, the first term that
      has both the formality and suits the gender is picked. */
  lemma PreferredFirstMatch(terms: seq<Term>, formality: Option<string>, gender: Option<Gender>, i: int)
    requires |Without(terms, [FormalityDrop(formality)])| > 1
    requires 0 <= i < |terms| && Keeps([FormalityDrop(formality)] + GenderDrops(gender), terms[i])
    requires forall j :: 0 <= j < i ==> !Keeps([FormalityDrop(formality)] + GenderDrops(gender), terms[j])
    ensures Preferred(terms, formality, gender) == terms[i]
  {
    var drops := [FormalityDrop(formality)] + GenderDrops(gender);
    WithoutTwice(terms, [FormalityDrop(formality)], GenderDrops(gender));
    WithoutFirst(terms, drops, i);
  }

  /** When no term has the user's formality, the first term that suits the
      gender is picked. */
  lemma PreferredByGenderAlone(terms: seq<Term>, formality: Option<string>, gender: Option<Gender>, i: int)
    requires |terms| > 1 && |Without(terms, [FormalityDrop(formality)])| == 0
    requires 0 <= i < |terms| && Keeps(GenderDrops(gender), terms[i])
    requires forall j :: 0 <= j < i ==> !Keeps(GenderDrops(gender), terms[j])
    ensures Preferred(terms, formality, gender) == terms[i]
  {
    WithoutFirst(terms, GenderDrops(gender), i);
  }

  /** `findPreferredTerm`. */
  method FindPreferredTerm(terms: seq<Term>, formality: Option<string>, gender: Option<Gender>) returns (r: string)
    requires |terms| > 0
    ensures r == Preferred(terms, formality, gender).text
  {
    if |terms| == 1 {
      return terms[0].text;
    }
    var beforeFilter := terms;
    var filtered := FilterFormality(beforeFilter, formality);
    if |filtered| == 1 {
      return filtered[0].text;
    }
    if |filtered| > 0 {
      beforeFilter := filtered;
    }
    filtered := FilterGender(beforeFilter, gender);
    if |filtered| == 0 {
      return beforeFilter[0].text;
    } else {
      return filtered[0].text;
    }
  }

  /** The term lists of a strings file are never empty. */
  predicate NonEmptyLists(strings: map<string, seq<Term>>) {
    forall id :: id in strings ==> |strings[id]| > 0
  }

  /** `translate`: the language's terms, else the defaults, else the given
      default result. */
  function Translation(strings: map<string, seq<Term>>, defaults: map<string, seq<Term>>, id: string,
                       defaultResult: string, formality: Option<string>, gender: Option<Gender>): (r: string)
    requires NonEmptyLists(strings) && NonEmptyLists(defaults)
    ensures id in strings ==> exists t :: t in strings[id] && t.text == r
    ensures id !in strings && id in defaults ==> exists t :: t in defaults[id] && t.text == r
    ensures id !in strings && id !in defaults ==> r == defaultResult
  {
    if id in strings then Preferred(strings[id], formality, gender).text
    else if id in defaults then Preferred(defaults[id], formality, gender).text
    else defaultResult
  }

  method Translate(strings: map<string, seq<Term>>, defaults: map<string, seq<Term>>, id: string,
                   defaultResult: string, formality: Option<string>, gender: Option<Gender>) returns (r: string)
    requires NonEmptyLists(strings) && NonEmptyLists(defaults)
    ensures r == Translation(strings, defaults, id, defaultResult, formality, gender)
  {
    var terms: seq<Term>;
    if id in strings {
      terms := strings[id];
    } else if id in defaults {
      terms := defaults[id];
    } else {
      return defaultResult;
    }
    r := FindPreferredTerm(terms, formality, gender);
  }

  /** The map `parseJsonArray` builds: entries with an empty definition are
      skipped; the others are appended to the list of their term. */
  function TermsOf(entries: seq<Entry>): (r: map<string, seq<Term>>)
    ensures NonEmptyLists(r)
    ensures forall id :: id in r ==> forall t :: t in r[id] ==> t.text != ""
    ensures forall id :: id in r <==> exists i :: 0 <= i < |entries| && entries[i].term == id && entries[i].definition != ""
    decreases |entries|
  {
    if |entries| == 0 then map[]
    else
      var init := entries[..|entries| - 1];
      var e := entries[|entries| - 1];
      var r := TermsOf(init);
      assert forall i :: 0 <= i < |init| ==> init[i] == entries[i];
      if e.definition == "" then r
      else r[e.term := (if e.term in r then r[e.term] else []) + [Term(ParseContext(e.context), e.definition)]]
  }

  /** `parseJsonArray` on the items as read from their maps. */
  method ParseEntries(entries: seq<Entry>) returns (result: map<string, seq<Term>>)
    ensures result == TermsOf(entries)
  {
    result := map[];
    for i := 0 to |entries|
      invariant result == TermsOf(entries[..i])
    {
      assert entries[..i + 1][..i] == entries[..i];
      var e := entries[i];
      if e.definition == "" {
        continue;
      }
      var context := ParseContext(e.context);
      var termList := if e.term in result then result[e.term] else [];
      result := result[e.term := termList + [Term(context, e.definition)]];
    }
    assert entries[..|entries|] == entries;
  }
}
