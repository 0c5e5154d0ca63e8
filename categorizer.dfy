/**
 * The server's keyword categoriser: the lower-cased text `${title} ${notes}`
 * is searched for five work keywords, then five personal ones; work wins.
 */
module Categorizer {
  import opened Text
  import opened Events

  const WorkKeywords: seq<string> := ["meeting", "project", "client", "deadline", "presentation"]
  const PersonalKeywords: seq<string> := ["birthday", "family", "home", "party", "vacation"]

  /** `notes || ""`: absent notes read as the empty string. */
  function NotesText(notes: Option<string>): string {
    if notes.Some? then notes.value else ""
  }

  /**
   * The searched text: title, one space, notes, lower-cased. It is as long as
   * the joined text, differs from it only in letter case, and has no
   * upper-case letter.
   */
  function Content(title: string, notes: Option<string>): (c: string)
    ensures |c| == |title| + 1 + |NotesText(notes)|
    ensures CaseVariant(title + " " + NotesText(notes), c)
    ensures forall i :: 0 <= i < |c| ==> !('A' <= c[i] <= 'Z')
  {
    Lower(title + " " + NotesText(notes))
  }

  /** Some keyword of `words` occurs somewhere in `content`. */
  ghost predicate Mentions(content: string, words: seq<string>) {
    exists w, i :: w in words && OccursAt(content, w, i)
  }

  /** `words.some(word => content.includes(word))`. */
  function SomeIncluded(content: string, words: seq<string>): (b: bool)
    ensures b <==> exists j :: 0 <= j < |words| && Contains(content, words[j])
  {
    |words| > 0 && (Contains(content, words[0]) || SomeIncluded(content, words[1..]))
  }

  lemma SomeIncludedIffMentions(content: string, words: seq<string>)
    ensures SomeIncluded(content, words) <==> Mentions(content, words)
  {
    forall j | 0 <= j < |words| ensures Contains(content, words[j]) <==> exists i :: OccursAt(content, words[j], i) {
      ContainsIffOccurs(content, words[j]);
    }
    if Mentions(content, words) {
      var w, i :| w in words && OccursAt(content, w, i);
      var j :| 0 <= j < |words| && words[j] == w;
      assert Contains(content, words[j]);
    }
  }

  /**
   * `categorizeEvent`. The result is one of the three labels, and which one is
   * decided by keyword occurrences alone, with work keywords taking precedence.
   */
  function Categorize(title: string, notes: Option<string>): (c: Category)
    ensures c == Work <==> Mentions(Content(title, notes), WorkKeywords)
    ensures c == Personal <==>
      !Mentions(Content(title, notes), WorkKeywords) && Mentions(Content(title, notes), PersonalKeywords)
    ensures c == Other <==>
      !Mentions(Content(title, notes), WorkKeywords) && !Mentions(Content(title, notes), PersonalKeywords)
  {
    var content := Content(title, notes);
    SomeIncludedIffMentions(content, WorkKeywords);
    SomeIncludedIffMentions(content, PersonalKeywords);
    if SomeIncluded(content, WorkKeywords) then Work
    else if SomeIncluded(content, PersonalKeywords) then Personal
    else Other
  }

  /** Changing the case of ASCII letters in the title or the notes does not change the category. */
  lemma CategorizeIgnoresCase(title: string, notes: Option<string>, title': string, notes': Option<string>)
    requires CaseVariant(title, title')
    requires CaseVariant(NotesText(notes), NotesText(notes'))
    ensures Categorize(title, notes) == Categorize(title', notes')
  {
    var a, b := title + " " + NotesText(notes), title' + " " + NotesText(notes');
    forall i | 0 <= i < |a| ensures LowerChar(a[i]) == LowerChar(b[i]) {
      if i > |title| {
        assert a[i] == NotesText(notes)[i - |title| - 1];
        assert b[i] == NotesText(notes')[i - |title| - 1];
      }
    }
    LowerOfCaseVariants(a, b);
  }

  lemma NoKeywordHasSpace()
    ensures forall w :: w in WorkKeywords ==> ' ' !in w
    ensures forall w :: w in PersonalKeywords ==> ' ' !in w
  {
  }

  /** A list of space-free keywords is searched in the title and in the notes independently. */
  lemma SomeIncludedInParts(a: string, b: string, words: seq<string>)
    requires forall w :: w in words ==> ' ' !in w
    ensures SomeIncluded(a + " " + b, words) <==> SomeIncluded(a, words) || SomeIncluded(b, words)
  {
    if SomeIncluded(a + " " + b, words) {
      var j :| 0 <= j < |words| && Contains(a + " " + b, words[j]);
      assert a + " " + b == a + [' '] + b;
      ContainsInJoinSplits(a, ' ', b, words[j]);
    }
    if SomeIncluded(a, words) || SomeIncluded(b, words) {
      var j :| 0 <= j < |words| && (Contains(a, words[j]) || Contains(b, words[j]));
      ContainsInJoin(a, " ", b, words[j]);
    }
  }

  /**
   * Since no keyword contains a space, no match straddles the joint between
   * title and notes: the category follows from the keywords found in the
   * lower-cased title and in the lower-cased notes, work before personal.
   */
  lemma CategorizeByParts(title: string, notes: Option<string>)
    ensures var t, n := Lower(title), Lower(NotesText(notes));
      Categorize(title, notes) ==
        if SomeIncluded(t, WorkKeywords) || SomeIncluded(n, WorkKeywords) then Work
        else if SomeIncluded(t, PersonalKeywords) || SomeIncluded(n, PersonalKeywords) then Personal
        else Other
  {
    var t, n := Lower(title), Lower(NotesText(notes));
    LowerAppend(title + " ", NotesText(notes));
    LowerAppend(title, " ");
    assert Lower(" ") == " ";
    NoKeywordHasSpace();
    SomeIncludedInParts(t, n, WorkKeywords);
    SomeIncludedInParts(t, n, PersonalKeywords);
    SomeIncludedIffMentions(Content(title, notes), WorkKeywords);
    SomeIncludedIffMentions(Content(title, notes), PersonalKeywords);
  }

  /** A work keyword anywhere in the title makes the event Work, whatever the notes say. */
  lemma WorkKeywordInTitle(title: string, notes: Option<string>, w: string)
    requires w in WorkKeywords && Contains(Lower(title), w)
    ensures Categorize(title, notes) == Work
  {
    CategorizeByParts(title, notes);
  }

  /** Creation scenario: "Team meeting" is a work event. */
  lemma MeetingIsWork(title: string)
    requires title == "Team meeting"
    ensures Categorize(title, None) == Work
  {
    var c := Content(title, None);
    assert c == "team meeting ";
    assert c[5..12] == "meeting";
    OccursImpliesContains(c, "meeting", 5);
  }

  /**
   * No keyword of `words` is found in `c` when each keyword has a character,
   * listed in `witnesses`, that `c` lacks.
   */
  lemma {:induction false} NoKeywordIncluded(c: string, words: seq<string>, witnesses: string)
    requires |witnesses| == |words|
    requires forall j :: 0 <= j < |words| ==> witnesses[j] in words[j] && witnesses[j] !in c
    ensures !SomeIncluded(c, words)
  {
    if words != [] {
      MissingCharNotContained(c, words[0], witnesses[0]);
      NoKeywordIncluded(c, words[1..], witnesses[1..]);
    }
  }

  /** Creation scenario: "Sister's birthday" is a personal event. */
  lemma BirthdayIsPersonal(title: string)
    requires title == "Sister's birthday"
    ensures Categorize(title, None) == Personal
  {
    var c := Content(title, None);
    assert c == "sister's birthday ";
    BirthdayText(c);
  }

  lemma BirthdayText(c: string)
    requires c == "sister's birthday "
    ensures !SomeIncluded(c, WorkKeywords) && SomeIncluded(c, PersonalKeywords)
  {
    NoKeywordIncluded(c, WorkKeywords, "mpcnp");
    assert c[9..17] == "birthday";
    OccursImpliesContains(c, "birthday", 9);
  }

  /** Creation scenario: "Go for a walk" matches no keyword. */
  lemma WalkIsOther(title: string)
    requires title == "Go for a walk"
    ensures Categorize(title, None) == Other
  {
    var c := Content(title, None);
    assert c == "go for a walk ";
    WalkText(c);
  }

  lemma WalkText(c: string)
    requires c == "go for a walk "
    ensures !SomeIncluded(c, WorkKeywords) && !SomeIncluded(c, PersonalKeywords)
  {
    NoKeywordIncluded(c, WorkKeywords, "mpcdp");
    NoKeywordIncluded(c, PersonalKeywords, "bmhpv");
  }
}
