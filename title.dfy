/** The title/gender split of `parse_info`: the first substring "for" in the
    title text separates the product title from the audience words. */
module Title {
  import opened Outcomes
  import opened Text

  datatype TitleGender = TitleGender(title: string, gender: seq<string>)

  /** What the scraper assumes when no "for" occurs: unisex. */
  const Unisex: seq<string> := ["men", "women"]

  /** First and last word, or the single word when they are equal. */
  function GenderOf(words: seq<string>): (g: seq<string>)
    requires words != []
    ensures 1 <= |g| <= 2 && g[0] == words[0] && g[|g| - 1] == words[|words| - 1]
    ensures |g| == 1 <==> words[0] == words[|words| - 1]
  {
    if words[|words| - 1] != words[0] then [words[0], words[|words| - 1]] else [words[0]]
  }

  /** The words after the first "for" (which must occur). */
  function WordsAfterFor(name: string): seq<string>
    requires Find(name, "for") != -1
  {
    var i := Find(name, "for");
    Split(name[i + 3..])
  }

  /** The split of scrape.py: `i = name.find('for')`; without a match, the
      whole text and both genders; otherwise the words after the match give
      the gender (IndexError when there are none) and `name[:i-1]` the title. */
  function SplitTitle(name: string): (r: Result<TitleGender>)
    ensures Find(name, "for") == -1 ==> r == Ok(TitleGender(name, Unisex))
    ensures r.Err? ==> r.error == IndexError
    ensures r.Ok? ==> 1 <= |r.value.gender| <= 2 && r.value.title <= name
  {
    var i := Find(name, "for");
    if i == -1 then Ok(TitleGender(name, Unisex))
    else
      var words := Split(name[i + 3..]);
      if words == [] then Err(IndexError)
      else Ok(TitleGender(SliceTo(name, i - 1), GenderOf(words)))
  }

  /** When "for" first occurs at `i`: the call fails exactly when no word
      follows; otherwise the gender holds the first and the last following
      word (once if they are equal), and the title is `name[:i-1]`, which for
      `i == 0` is the whole text but its last character. */
  lemma SplitTitleFound(name: string)
    requires Find(name, "for") != -1
    ensures var i := Find(name, "for");
      var words := WordsAfterFor(name);
      var r := SplitTitle(name);
      && (r.Err? <==> words == [])
      && (r.Ok? ==> r.value.gender == GenderOf(words))
      && (r.Ok? && i >= 1 ==> r.value.title == name[..i - 1])
      && (r.Ok? && i == 0 ==> r.value.title == name[..|name| - 1])
  {
  }

  /** Every gender tag is a whitespace-free word of the title text. */
  lemma GenderTagsAreWords(name: string)
    requires SplitTitle(name).Ok?
    ensures AllWords(SplitTitle(name).value.gender)
  {
    var i := Find(name, "for");
    if i != -1 {
      SplitGivesWords(name[i + 3..]);
    }
  }

  lemma NoForAcrossSpace(title: string, rest: string, j: int)
    requires Find(title, "for") == -1
    requires rest != [] && rest[0] == ' '
    requires 0 <= j <= |title|
    ensures !OccursAt(title + rest, "for", j)
  {
    var name := title + rest;
    if j + 3 <= |title| {
      assert OccursAt(title + rest, "for", j) ==> OccursAt(title, "for", j) by {
        assert name[j..j + 3] == title[j..j + 3];
      }
    } else if OccursAt(name, "for", j) {
      assert name[|title|] == ' ';
      assert name[j..j + 3][|title| - j] == name[|title|];
    }
  }

  lemma SplitTitleAt(name: string, i: nat)
    requires Find(name, "for") == i
    requires Split(name[i + 3..]) != []
    ensures SplitTitle(name) == Ok(TitleGender(SliceTo(name, i - 1), GenderOf(Split(name[i + 3..]))))
  {
  }

  /** The first "for" in a title without one, followed by " for", is the
      one after the title. */
  lemma FindAfterTitle(title: string, rest: string)
    requires Find(title, "for") == -1
    requires |rest| >= 4 && rest[..4] == " for"
    ensures Find(title + rest, "for") == |title| + 1
  {
    var name := title + rest;
    var i := |title| + 1;
    assert OccursAt(name, "for", i) by {
      assert name[i..i + 3] == rest[1..4];
    }
    forall j | 0 <= j < i ensures !OccursAt(name, "for", j) {
      NoForAcrossSpace(title, rest, j);
    }
  }

  /** In text built as a title without "for", then " for", then words
      each preceded by one space, the split recovers exactly that title and
      the first and last of those words. */
  lemma SplitTitleOfComposed(title: string, words: seq<string>)
    requires Find(title, "for") == -1
    requires words != [] && AllWords(words)
    ensures SplitTitle(title + " for" + Spaced(words)) == Ok(TitleGender(title, GenderOf(words)))
  {
    var rest := " for" + Spaced(words);
    var name := title + rest;
    var i := |title| + 1;
    assert title + " for" + Spaced(words) == name;
    assert Find(name, "for") == i by { FindAfterTitle(title, rest); }
    assert name[i + 3..] == Spaced(words);
    assert Split(name[i + 3..]) == words by { SplitSpaced(words); }
    assert SliceTo(name, i - 1) == title;
    SplitTitleAt(name, i);
  }

  /** Text without the letter 'f' holds no "for". */
  lemma NoForWithoutF(s: string)
    requires 'f' !in s
    ensures Find(s, "for") == -1
  {
    forall j | 0 <= j && j + 3 <= |s| ensures !OccursAt(s, "for", j) {
      assert s[j..j + 3][0] == s[j];
    }
  }

  /** "Sauvage" (no "for"): the whole text, both genders. */
  lemma ExampleNoFor()
    ensures SplitTitle("Sauvage") == Ok(TitleGender("Sauvage", ["men", "women"]))
  {
    NoForWithoutF("Sauvage");
  }

  lemma SauvageHasNoFor()
    ensures Find("Sauvage", "for") == -1
  {
    NoForWithoutF("Sauvage");
  }

  lemma SauvageForMen(name: string)
    requires name == "Sauvage for men"
    ensures name == "Sauvage" + " for" + Spaced(["men"]) && AllWords(["men"])
  {
  }

  /** "Sauvage for men": one audience word. */
  lemma ExampleForMen(name: string)
    requires name == "Sauvage for men"
    ensures SplitTitle(name) == Ok(TitleGender("Sauvage", ["men"]))
  {
    SauvageHasNoFor();
    SauvageForMen(name);
    SplitTitleOfComposed("Sauvage", ["men"]);
  }

  lemma SpacedMenAndWomen()
    ensures Spaced(["men", "and", "women"]) == " men and women"
  {
    assert Spaced(["women"]) == " women";
    assert ["men", "and", "women"][1..][1..] == ["women"];
    assert Spaced(["and", "women"]) == " and women";
  }

  lemma MenAndWomenAreWords()
    ensures AllWords(["men", "and", "women"])
  {
    assert IsWord("men") && IsWord("and") && IsWord("women");
  }

  lemma SauvageForMenAndWomen(name: string)
    requires name == "Sauvage for men and women"
    ensures name == "Sauvage" + " for" + Spaced(["men", "and", "women"])
    ensures AllWords(["men", "and", "women"])
  {
    SpacedMenAndWomen();
    MenAndWomenAreWords();
  }

  /** "Sauvage for men and women": the first and the last word. */
  lemma ExampleForMenAndWomen(name: string)
    requires name == "Sauvage for men and women"
    ensures SplitTitle(name) == Ok(TitleGender("Sauvage", ["men", "women"]))
  {
    SauvageHasNoFor();
    SauvageForMenAndWomen(name);
    GenderOfThree("men", "and", "women");
    SplitTitleOfComposed("Sauvage", ["men", "and", "women"]);
  }

  /** A title without "for", then " for" and nothing else: no word follows
      the match, so `s[-1]` raises IndexError. */
  lemma SplitTitleNothingAfter(title: string)
    requires Find(title, "for") == -1
    ensures SplitTitle(title + " for") == Err(IndexError)
  {
    FindAfterTitle(title, " for");
    assert (title + " for")[|title| + 4..] == [];
  }

  /** "Sauvage for": the IndexError case. */
  lemma ExampleNothingAfterFor(name: string)
    requires name == "Sauvage for"
    ensures SplitTitle(name) == Err(IndexError)
  {
    SauvageHasNoFor();
    assert name == "Sauvage" + " for";
    SplitTitleNothingAfter("Sauvage");
  }

  /** A word, then words each preceded by one space, splits back into
      those words. */
  lemma SplitWordThenSpaced(w: string, words: seq<string>)
    requires IsWord(w) && AllWords(words)
    ensures Split(w + Spaced(words)) == [w] + words
  {
    SpacedStart(words);
    SplitWordThenRest(w, Spaced(words));
    SplitSpaced(words);
  }

  lemma ComfortFind(name: string)
    requires name == "Comfort for men"
    ensures Find(name, "for") == 3
  {
    assert OccursAt(name, "for", 3);
    forall j | 0 <= j < 3 ensures !OccursAt(name, "for", j) {
      assert name[j..j + 3][0] == name[j];
    }
  }

  lemma ComfortWords(name: string)
    requires name == "Comfort for men"
    ensures Split(name[6..]) == ["t", "for", "men"]
  {
    assert name[6..] == "t" + Spaced(["for", "men"]);
    assert AllWords(["for", "men"]);
    SplitWordThenSpaced("t", ["for", "men"]);
  }

  lemma ComfortTitle(name: string)
    requires name == "Comfort for men"
    ensures SliceTo(name, 2) == "Co"
  {
  }

  lemma GenderOfThree(a: string, b: string, c: string)
    requires a != c
    ensures GenderOf([a, b, c]) == [a, c]
  {
  }

  /** The split assembled from its parts: the match index, the words after
      it and the title before it. */
  lemma SplitTitleFromParts(name: string, i: nat, words: seq<string>, title: string)
    requires Find(name, "for") == i
    requires Split(name[i + 3..]) == words && words != []
    requires SliceTo(name, i - 1) == title
    ensures SplitTitle(name) == Ok(TitleGender(title, GenderOf(words)))
  {
  }

  /** "Comfort for men": the substring search matches inside "Comfort", so
      the title is "Co" and the words after the match are "t", "for", "men". */
  lemma ExampleForInsideWord(name: string)
    requires name == "Comfort for men"
    ensures SplitTitle(name) == Ok(TitleGender("Co", ["t", "men"]))
  {
    ComfortFind(name);
    ComfortWords(name);
    ComfortTitle(name);
    GenderOfThree("t", "for", "men");
    SplitTitleFromParts(name, 3, ["t", "for", "men"], "Co");
  }

  lemma ForMenWords(name: string)
    requires name == "for men"
    ensures Find(name, "for") == 0 && Split(name[3..]) == ["men"]
  {
    assert OccursAt(name, "for", 0);
    assert name[3..] == Spaced(["men"]);
    assert AllWords(["men"]);
    SplitSpaced(["men"]);
  }

  /** "for men": the match is at 0, so `name[:-1]` drops only the last character. */
  lemma ExampleForAtStart(name: string)
    requires name == "for men"
    ensures SplitTitle(name) == Ok(TitleGender("for me", ["men"]))
  {
    ForMenWords(name);
    SplitTitleAt(name, 0);
    assert SliceTo(name, -1) == "for me";
  }
}
