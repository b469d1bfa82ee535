/**
  Worked examples of the handlers on concrete chat input: the comma split
  of `/add  milk ,EGGS, bread`, the items it stores, the empty item a
  whitespace-only segment produces, and the removal of a case-insensitive
  partial match.
 */
module Scenarios {
  import opened Text
  import opened ListStore

  /** Title-casing an apostrophe starts a new word: `"they're".title()`. */
  lemma TitleAfterApostrophe()
    ensures Title("they're") == "They'Re"
  {
  }

  /** The chat library hands over the words `milk`, `,EGGS,` and `bread`;
      joined by spaces they give back the typed text. */
  lemma JoinedAddArguments()
    ensures Join(["milk", ",EGGS,", "bread"], " ") == "milk ,EGGS, bread"
  {
  }

  /** The typed text is the comma join of its three segments. */
  lemma CommaJoinedSegments()
    ensures Join(["milk ", "EGGS", " bread"], [',']) == "milk ,EGGS, bread"
  {
  }

  /** The argument words of `/add  milk ,EGGS, bread` are joined by spaces
      and cut at commas; the padding stays on the segments. */
  lemma SegmentsOfAddExample()
    ensures Segments(["milk", ",EGGS,", "bread"]) == ["milk ", "EGGS", " bread"]
  {
    var joined := "milk ,EGGS, bread";
    JoinedAddArguments();
    StripFixpoint(joined);
    CommaJoinedSegments();
    SplitOfJoin(["milk ", "EGGS", " bread"], ',');
  }

  /** Title-casing a word of letters upper-cases its first letter and
      lower-cases the rest. */
  lemma TitleWord(word: string, expected: string)
    requires |word| == |expected|
    requires forall i :: 0 <= i < |word| ==> IsLetter(word[i])
    requires |word| > 0 ==> expected[0] == ToUpper(word[0])
    requires forall i :: 0 < i < |word| ==> expected[i] == ToLower(word[i])
    ensures Title(word) == expected
  {
    var t := Title(word);
    forall i | 0 <= i < |word|
      ensures t[i] == expected[i]
    {
      if i > 0 {
        assert IsLetter(word[i - 1]);
      }
    }
  }

  /** Normalising a word of letters padded with whitespace. */
  lemma NormalizePaddedWord(pre: string, word: string, post: string, expected: string)
    requires forall k :: 0 <= k < |pre| ==> IsSpace(pre[k])
    requires forall k :: 0 <= k < |post| ==> IsSpace(post[k])
    requires IsStripped(word)
    requires Title(word) == expected
    ensures Normalize(pre + word + post) == expected
  {
    StripPadded(pre, word, post);
  }

  /** Adding three segments of non-zero length to the initial state stores
      their three normalised forms. */
  lemma AddThreeSegments(a: string, b: string, c: string, x: string, y: string, z: string)
    requires |a| > 0 && |b| > 0 && |c| > 0
    requires Normalize(a) == x && Normalize(b) == y && Normalize(c) == z
    ensures AddSegments(Initial, [a, b, c]).state.list == [x, y, z]
  {
    var segments := [a, b, c];
    assert segments[1..] == [b, c];
    assert segments[1..][1..] == [c];
    assert [c][1..] == [];
    assert Kept([c]) == [z];
    assert Kept([b, c]) == [y] + [z];
    assert Kept(segments) == [x] + [y, z];
  }

  /** `milk ` with its trailing space is stored as `Milk`. */
  lemma MilkPadded()
    ensures Normalize("milk ") == "Milk"
  {
    TitleWord("milk", "Milk");
    NormalizePaddedWord("", "milk", " ", "Milk");
    assert "" + "milk" + " " == "milk ";
  }

  /** `EGGS` is stored as `Eggs`. */
  lemma UpperEggs()
    ensures Normalize("EGGS") == "Eggs"
  {
  }

  /** ` bread` with its leading space is stored as `Bread`. */
  lemma BreadPadded()
    ensures Normalize(" bread") == "Bread"
  {
    TitleWord("bread", "Bread");
    NormalizePaddedWord(" ", "bread", "", "Bread");
    assert " " + "bread" + "" == " bread";
  }

  /** `milk` is stored as `Milk`. */
  lemma BareMilk()
    ensures Normalize("milk") == "Milk"
  {
  }

  /** `eggs` is stored as `Eggs`. */
  lemma BareEggs()
    ensures Normalize("eggs") == "Eggs"
  {
  }

  /** The segments above become the items `Milk`, `Eggs` and `Bread`. */
  lemma AddExample()
    ensures AddSegments(Initial, ["milk ", "EGGS", " bread"]).state.list == ["Milk", "Eggs", "Bread"]
  {
    MilkPadded();
    UpperEggs();
    BreadPadded();
    AddThreeSegments("milk ", "EGGS", " bread", "Milk", "Eggs", "Bread");
  }

  /** A whitespace-only segment is stored as the empty item. */
  lemma AddBlankSegmentExample()
    ensures AddSegments(Initial, ["milk", " ", "eggs"]).state.list == ["Milk", "", "Eggs"]
  {
    BareMilk();
    BlankNormalizesToEmpty(" ");
    BareEggs();
    AddThreeSegments("milk", " ", "eggs", "Milk", "", "Eggs");
  }

  /** The query of `/remove EGG`. */
  lemma EggQuery()
    ensures Query(["EGG"]) == "EGG"
  {
  }

  /** `Milk` does not contain `egg` in any case. */
  lemma MilkDoesNotMatchEgg()
    ensures !Matches("Milk", "EGG")
  {
  }

  /** `Eggs` contains `egg` once both are lower-cased. */
  lemma EggsMatchesEgg()
    ensures Matches("Eggs", "EGG")
  {
  }

  /** Of three items, remove deletes the second when it is the first one
      matching the query. */
  lemma RemoveSecondOfThree(a: string, b: string, c: string, args: seq<string>, query: string)
    requires Query(args) == query && |query| > 0
    requires !Matches(a, query) && Matches(b, query)
    ensures Remove(State([a, b, c], []), args).state.list == [a, c]
  {
    var items := [a, b, c];
    assert IsFirstMatch(items, query, 1);
    assert items[..1] + items[2..] == [a, c];
  }

  /** `/remove EGG` deletes `Eggs`, the first item containing `egg` in any
      case, and keeps the others in order. */
  lemma RemoveExample()
    ensures Remove(State(["Milk", "Eggs", "Bread"], []), ["EGG"]).state.list == ["Milk", "Bread"]
  {
    EggQuery();
    MilkDoesNotMatchEgg();
    EggsMatchesEgg();
    RemoveSecondOfThree("Milk", "Eggs", "Bread", ["EGG"], "EGG");
  }
}
