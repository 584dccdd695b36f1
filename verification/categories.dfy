/** Rule-based topical categories: first keyword match wins, in the order education, skills,
    projects, with `general` as the fall-through. */
module Categories {
  import opened Wrappers
  import opened Text
  import opened Chunks

  datatype Category = Education | Skills | Projects | General {

    /** The label stored in a chunk's `category` metadata. */
    function Label(): (s: string)
      ensures s in {"education", "skills", "projects", "general"}
    {
      match this
      case Education => "education"
      case Skills => "skills"
      case Projects => "projects"
      case General => "general"
    }
  }

  const EducationKeywords: seq<string> := [
    "education", "degree", "university", "post graduate", "pg diploma", "bachelor",
    "diploma", "engineering", "polytechnic", "school", "college"]

  // The list names eleven keywords twice; the repeats change nothing.
  const SkillsKeywords: seq<string> := [
    "skill", "proficient", "expert", "programming", "language", "tool", "technology",
    "framework", "library", "database", "software", "hardware", "platform", "cloud",
    "service", "methodology", "framework", "tool", "technology", "library", "database",
    "software", "hardware", "platform", "cloud", "service", "methodology"]

  const ProjectsKeywords: seq<string> := ["project", "case study", "portfolio", "Academic"]

  /** Some word of `words` occurs in `text` as a substring. */
  predicate MentionsAny(words: seq<string>, text: string) {
    exists w :: w in words && Occurs(w, text)
  }

  /** The category of a chunk's text, decided on its lower-cased form. */
  function Classify(content: string): Category {
    var text := Lower(content);
    if MentionsAny(EducationKeywords, text) then Education
    else if MentionsAny(SkillsKeywords, text) then Skills
    else if MentionsAny(ProjectsKeywords, text) then Projects
    else General
  }

  /** The classification loop of ingestion: writes every chunk's category in place.
      Nothing but `category` changes. */
  method AssignCategories(chunks: seq<Chunk>)
    modifies chunks`category
    ensures forall i :: 0 <= i < |chunks| ==> chunks[i].category == Some(Classify(chunks[i].pageContent).Label())
  {
    var n := 0;
    while n < |chunks|
      invariant 0 <= n <= |chunks|
      invariant forall i :: 0 <= i < n ==> chunks[i].category == Some(Classify(chunks[i].pageContent).Label())
    {
      var chunk := chunks[n];
      var content := Lower(chunk.pageContent);
      if MentionsAny(EducationKeywords, content) {
        chunk.category := Some("education");
      } else if MentionsAny(SkillsKeywords, content) {
        chunk.category := Some("skills");
      } else if MentionsAny(ProjectsKeywords, content) {
        chunk.category := Some("projects");
      } else {
        chunk.category := Some("general");
      }
      n := n + 1;
    }
  }

  // ---------------------------------------------------------------------------
  // Precedence and reachability.

  /** "Academic" is compared with lower-cased text, so it never matches. */
  lemma AcademicNeverMatches(content: string)
    ensures !Occurs("Academic", Lower(content))
  {
    NoUpperWordInLower("Academic", content, 0);
  }

  /** Education wins whenever an education keyword occurs. */
  lemma EducationIff(content: string)
    ensures Classify(content) == Education <==> MentionsAny(EducationKeywords, Lower(content))
  {
  }

  /** Skills only when no education keyword occurs and a skills keyword does. */
  lemma SkillsIff(content: string)
    ensures Classify(content) == Skills <==>
      !MentionsAny(EducationKeywords, Lower(content)) && MentionsAny(SkillsKeywords, Lower(content))
  {
  }

  /** Projects is reached only through "project", "case study" or "portfolio", after neither
      education nor skills matched. */
  lemma ProjectsIff(content: string)
    ensures var text := Lower(content);
      Classify(content) == Projects <==>
        && !MentionsAny(EducationKeywords, text)
        && !MentionsAny(SkillsKeywords, text)
        && (Occurs("project", text) || Occurs("case study", text) || Occurs("portfolio", text))
  {
    AcademicNeverMatches(content);
  }

  /** General exactly when no keyword of any list occurs. */
  lemma GeneralIff(content: string)
    ensures var text := Lower(content);
      Classify(content) == General <==>
        !MentionsAny(EducationKeywords, text) && !MentionsAny(SkillsKeywords, text) &&
        !MentionsAny(ProjectsKeywords, text)
  {
  }

  /** A text naming a university is education even when it also names programming. */
  lemma UniversityBeatsProgramming(content: string)
    requires Occurs("university", Lower(content)) && Occurs("programming", Lower(content))
    ensures Classify(content) == Education
  {
    assert "university" in EducationKeywords;
  }

  /** Matching ignores case: texts that agree after lower-casing get the same category. */
  lemma ClassifyIgnoresCase(content: string)
    ensures Classify(Lower(content)) == Classify(content)
  {
    LowerIdempotent(content);
  }

  /** Keywords are found inside longer words: "engineering" in "reengineering". */
  lemma SubstringMatch()
    ensures Classify("reengineering legacy systems") == Education
  {
    var text := "re" + "engineering" + " legacy systems";
    assert text == "reengineering legacy systems";
    var low := Lower(text);
    assert low[2..13] == "engineering" by {
      assert text[2..13] == "engineering";
      forall k | 2 <= k < 13 ensures low[k] == text[k] {
        assert !IsUpper(text[k]);
      }
    }
    assert MentionsAny(EducationKeywords, low) by {
      assert OccursAt("engineering", low, 2);
      assert "engineering" in EducationKeywords;
    }
  }

  /** Lower-casing maps the Kelvin sign to `k`, so "S\U{212A}ILL" reads as "skill". */
  lemma KelvinSignSkill()
    ensures Classify("S\U{212A}ILL") == Skills
  {
    var text := Lower("S\U{212A}ILL");
    assert text == "skill" by {
      assert text[0] == 's' && text[1] == 'k' && text[2] == 'i' && text[3] == 'l' && text[4] == 'l';
    }
    forall w | w in EducationKeywords ensures !Occurs(w, text) {
      assert |w| > |text|;
    }
    assert OccursAt("skill", text, 0);
    assert "skill" in SkillsKeywords;
  }
}
