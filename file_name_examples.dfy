/** The titles of the unit tests of `generateFileName`, evaluated. Each
    example is proved in small steps: lower-casing, cleaning, splitting into
    words, dropping the common words and taking the first two. */
module FileNameExamples {
  import opened Strings
  import opened FileName

  /** Two words are joined by `-`. */
  lemma HelloWorld()
    ensures GenerateFileName("Hello World") == "hello-world.html"
  {
    HelloWorldClean();
    HelloWorldWords();
    HelloWorldPick();
    HelloWorldBlank();
    NameOfWords("Hello World", ["hello", "world"]);
  }

  lemma HelloWorldLower()
    ensures Lower("Hello World") == "hello world"
  {
    var t := "Hello World";
    forall i | 0 <= i < |t| ensures Lower(t)[i] == "hello world"[i] {}
  }

  lemma HelloWorldClean()
    ensures CleanTitle("Hello World") == Join(["hello", "world"], " ")
  {
    HelloWorldLower();
    HelloWorldKeep();
    HelloWorldTrim();
    HelloWorldJoin();
  }

  lemma HelloWorldKeep()
    ensures KeepWordsAndSpaces("hello world") == "hello world"
  {
    var l := "hello world";
    forall i | 0 <= i < |l| ensures IsWordChar(l[i]) || IsSpace(l[i]) {}
    KeepWordsAndSpacesKeeps(l);
  }

  lemma HelloWorldTrim()
    ensures Trim("hello world") == "hello world"
  {
    var l := "hello world";
    assert l[0] == 'h' && l[|l| - 1] == 'd';
  }

  lemma HelloWorldJoin()
    ensures Join(["hello", "world"], " ") == "hello world"
  {
  }

  lemma HelloWorldWords()
    ensures Words(["hello", "world"])
  {
    var ws := ["hello", "world"];
    forall k | 0 <= k < |ws| ensures ws[k] != [] && NoSpace(ws[k]) {
      forall i | 0 <= i < |ws[k]| ensures !IsSpace(ws[k][i]) {}
    }
  }

  lemma HelloWorldDrop()
    ensures DropCommonWords(["hello", "world"]) == ["hello", "world"]
  {
  }

  lemma HelloWorldPick()
    ensures Join(FirstTwo(DropCommonWords(["hello", "world"])), "-") + ".html" == "hello-world.html"
  {
    HelloWorldDrop();
    assert Join(["hello", "world"], "-") == "hello-world";
  }

  lemma HelloWorldBlank()
    ensures ' ' in "Hello World"
  {
    assert "Hello World"[5] == ' ';
  }

  /** A leading common word is dropped and only the next two words are kept. */
  lemma QuickBrownFox()
    ensures GenerateFileName("The Quick Brown Fox") == "quick-brown.html"
  {
    QuickBrownFoxClean();
    QuickBrownFoxWords();
    QuickBrownFoxPick();
    QuickBrownFoxBlank();
    NameOfWords("The Quick Brown Fox", ["the", "quick", "brown", "fox"]);
  }

  lemma QuickBrownFoxLower()
    ensures Lower("The Quick Brown Fox") == "the quick brown fox"
  {
    var t := "The Quick Brown Fox";
    forall i | 0 <= i < |t| ensures Lower(t)[i] == "the quick brown fox"[i] {}
  }

  lemma QuickBrownFoxClean()
    ensures CleanTitle("The Quick Brown Fox") == Join(["the", "quick", "brown", "fox"], " ")
  {
    QuickBrownFoxLower();
    QuickBrownFoxKeep();
    QuickBrownFoxTrim();
    QuickBrownFoxJoin();
  }

  lemma QuickBrownFoxKeep()
    ensures KeepWordsAndSpaces("the quick brown fox") == "the quick brown fox"
  {
    var l := "the quick brown fox";
    forall i | 0 <= i < |l| ensures IsWordChar(l[i]) || IsSpace(l[i]) {}
    KeepWordsAndSpacesKeeps(l);
  }

  lemma QuickBrownFoxTrim()
    ensures Trim("the quick brown fox") == "the quick brown fox"
  {
    var l := "the quick brown fox";
    assert l[0] == 't' && l[|l| - 1] == 'x';
  }

  lemma QuickBrownFoxJoin()
    ensures Join(["the", "quick", "brown", "fox"], " ") == "the quick brown fox"
  {
    var ws := ["the", "quick", "brown", "fox"];
    var c := Join(ws[3..], " ");
    assert c == "fox" by {
      assert ws[3..] == ["fox"];
    }
    var b := Join(ws[2..], " ");
    assert b == "brown fox" by {
      assert ws[2..][1..] == ws[3..] && ws[2..][0] == "brown";
      assert b == "brown" + " " + c;
    }
    var a := Join(ws[1..], " ");
    assert a == "quick brown fox" by {
      assert ws[1..][1..] == ws[2..] && ws[1..][0] == "quick";
      assert a == "quick" + " " + b;
    }
    assert Join(ws, " ") == "the" + " " + a;
  }

  lemma QuickBrownFoxWords()
    ensures Words(["the", "quick", "brown", "fox"])
  {
    var ws := ["the", "quick", "brown", "fox"];
    forall k | 0 <= k < |ws| ensures ws[k] != [] && NoSpace(ws[k]) {
      forall i | 0 <= i < |ws[k]| ensures !IsSpace(ws[k][i]) {}
    }
  }

  lemma QuickBrownFoxDrop()
    ensures DropCommonWords(["the", "quick", "brown", "fox"]) == ["quick", "brown", "fox"]
  {
  }

  lemma QuickBrownFoxPick()
    ensures Join(FirstTwo(DropCommonWords(["the", "quick", "brown", "fox"])), "-") + ".html" == "quick-brown.html"
  {
    QuickBrownFoxDrop();
    assert FirstTwo(["quick", "brown", "fox"]) == ["quick", "brown"];
    assert Join(["quick", "brown"], "-") == "quick-brown";
  }

  lemma QuickBrownFoxBlank()
    ensures ' ' in "The Quick Brown Fox"
  {
    assert "The Quick Brown Fox"[3] == ' ';
  }

  /** Digits are word characters and are kept. */
  lemma PhilosophyReview()
    ensures GenerateFileName("2024 Philosophy Review") == "2024-philosophy.html"
  {
    PhilosophyReviewClean();
    PhilosophyReviewWords();
    PhilosophyReviewPick();
    PhilosophyReviewBlank();
    NameOfWords("2024 Philosophy Review", ["2024", "philosophy", "review"]);
  }

  lemma PhilosophyReviewLower()
    ensures Lower("2024 Philosophy Review") == "2024 philosophy review"
  {
    var t := "2024 Philosophy Review";
    forall i | 0 <= i < |t| ensures Lower(t)[i] == "2024 philosophy review"[i] {}
  }

  lemma PhilosophyReviewClean()
    ensures CleanTitle("2024 Philosophy Review") == Join(["2024", "philosophy", "review"], " ")
  {
    PhilosophyReviewLower();
    PhilosophyReviewKeep();
    PhilosophyReviewTrim();
    PhilosophyReviewJoin();
  }

  lemma PhilosophyReviewKeep()
    ensures KeepWordsAndSpaces("2024 philosophy review") == "2024 philosophy review"
  {
    var l := "2024 philosophy review";
    forall i | 0 <= i < |l| ensures IsWordChar(l[i]) || IsSpace(l[i]) {}
    KeepWordsAndSpacesKeeps(l);
  }

  lemma PhilosophyReviewTrim()
    ensures Trim("2024 philosophy review") == "2024 philosophy review"
  {
    var l := "2024 philosophy review";
    assert l[0] == '2' && l[|l| - 1] == 'w';
  }

  lemma PhilosophyReviewJoin()
    ensures Join(["2024", "philosophy", "review"], " ") == "2024 philosophy review"
  {
  }

  lemma PhilosophyReviewWords()
    ensures Words(["2024", "philosophy", "review"])
  {
    var ws := ["2024", "philosophy", "review"];
    forall k | 0 <= k < |ws| ensures ws[k] != [] && NoSpace(ws[k]) {
      forall i | 0 <= i < |ws[k]| ensures !IsSpace(ws[k][i]) {}
    }
  }

  lemma PhilosophyReviewDrop()
    ensures DropCommonWords(["2024", "philosophy", "review"]) == ["2024", "philosophy", "review"]
  {
  }

  lemma PhilosophyReviewPick()
    ensures Join(FirstTwo(DropCommonWords(["2024", "philosophy", "review"])), "-") + ".html" == "2024-philosophy.html"
  {
    PhilosophyReviewDrop();
    assert FirstTwo(["2024", "philosophy", "review"]) == ["2024", "philosophy"];
    assert Join(["2024", "philosophy"], "-") == "2024-philosophy";
  }

  lemma PhilosophyReviewBlank()
    ensures ' ' in "2024 Philosophy Review"
  {
    assert "2024 Philosophy Review"[4] == ' ';
  }

  /** A title of common words only is named `.html`. */
  lemma AllCommon()
    ensures GenerateFileName("The And Or") == ".html"
  {
    AllCommonClean();
    AllCommonWords();
    AllCommonPick();
    AllCommonBlank();
    NameOfWords("The And Or", ["the", "and", "or"]);
  }

  lemma AllCommonLower()
    ensures Lower("The And Or") == "the and or"
  {
    var t := "The And Or";
    forall i | 0 <= i < |t| ensures Lower(t)[i] == "the and or"[i] {}
  }

  lemma AllCommonClean()
    ensures CleanTitle("The And Or") == Join(["the", "and", "or"], " ")
  {
    AllCommonLower();
    AllCommonKeep();
    AllCommonTrim();
    AllCommonJoin();
  }

  lemma AllCommonKeep()
    ensures KeepWordsAndSpaces("the and or") == "the and or"
  {
    var l := "the and or";
    forall i | 0 <= i < |l| ensures IsWordChar(l[i]) || IsSpace(l[i]) {}
    KeepWordsAndSpacesKeeps(l);
  }

  lemma AllCommonTrim()
    ensures Trim("the and or") == "the and or"
  {
    var l := "the and or";
    assert l[0] == 't' && l[|l| - 1] == 'r';
  }

  lemma AllCommonJoin()
    ensures Join(["the", "and", "or"], " ") == "the and or"
  {
  }

  lemma AllCommonWords()
    ensures Words(["the", "and", "or"])
  {
    var ws := ["the", "and", "or"];
    forall k | 0 <= k < |ws| ensures ws[k] != [] && NoSpace(ws[k]) {
      forall i | 0 <= i < |ws[k]| ensures !IsSpace(ws[k][i]) {}
    }
  }

  lemma AllCommonDrop()
    ensures DropCommonWords(["the", "and", "or"]) == []
  {
  }

  lemma AllCommonPick()
    ensures Join(FirstTwo(DropCommonWords(["the", "and", "or"])), "-") + ".html" == ".html"
  {
    AllCommonDrop();
    assert Join([], "-") == "";
  }

  lemma AllCommonBlank()
    ensures ' ' in "The And Or"
  {
    assert "The And Or"[3] == ' ';
  }

  /** A single word left gives a name without `-`. */
  lemma OneWordLeft()
    ensures GenerateFileName("A Test") == "test.html"
  {
    OneWordLeftClean();
    OneWordLeftWords();
    OneWordLeftPick();
    OneWordLeftBlank();
    NameOfWords("A Test", ["a", "test"]);
  }

  lemma OneWordLeftLower()
    ensures Lower("A Test") == "a test"
  {
    var t := "A Test";
    forall i | 0 <= i < |t| ensures Lower(t)[i] == "a test"[i] {}
  }

  lemma OneWordLeftClean()
    ensures CleanTitle("A Test") == Join(["a", "test"], " ")
  {
    OneWordLeftLower();
    OneWordLeftKeep();
    OneWordLeftTrim();
    OneWordLeftJoin();
  }

  lemma OneWordLeftKeep()
    ensures KeepWordsAndSpaces("a test") == "a test"
  {
    var l := "a test";
    forall i | 0 <= i < |l| ensures IsWordChar(l[i]) || IsSpace(l[i]) {}
    KeepWordsAndSpacesKeeps(l);
  }

  lemma OneWordLeftTrim()
    ensures Trim("a test") == "a test"
  {
    var l := "a test";
    assert l[0] == 'a' && l[|l| - 1] == 't';
  }

  lemma OneWordLeftJoin()
    ensures Join(["a", "test"], " ") == "a test"
  {
  }

  lemma OneWordLeftWords()
    ensures Words(["a", "test"])
  {
    var ws := ["a", "test"];
    forall k | 0 <= k < |ws| ensures ws[k] != [] && NoSpace(ws[k]) {
      forall i | 0 <= i < |ws[k]| ensures !IsSpace(ws[k][i]) {}
    }
  }

  lemma OneWordLeftDrop()
    ensures DropCommonWords(["a", "test"]) == ["test"]
  {
  }

  lemma OneWordLeftPick()
    ensures Join(FirstTwo(DropCommonWords(["a", "test"])), "-") + ".html" == "test.html"
  {
    OneWordLeftDrop();
    assert Join(["test"], "-") == "test";
  }

  lemma OneWordLeftBlank()
    ensures ' ' in "A Test"
  {
    assert "A Test"[1] == ' ';
  }

  /** A title without a blank is only lower-cased. */
  lemma Philosophy()
    ensures GenerateFileName("Philosophy") == "philosophy.html"
  {
    PhilosophyLower();
    NameOfSingleWord("Philosophy");
  }

  lemma PhilosophyLower()
    ensures Lower("Philosophy") == "philosophy"
  {
    var t := "Philosophy";
    forall i | 0 <= i < |t| ensures Lower(t)[i] == "philosophy"[i] {}
  }

  /** Punctuation is dropped from a title with a blank. */
  lemma WhatsPhilosophy()
    ensures GenerateFileName("What's Philosophy?") == "whats-philosophy.html"
  {
    WhatsPhilosophyClean();
    WhatsPhilosophyWords();
    WhatsPhilosophyPick();
    WhatsPhilosophyBlank();
    NameOfWords("What's Philosophy?", ["whats", "philosophy"]);
  }

  lemma WhatsPhilosophyLower()
    ensures Lower("What's Philosophy?") == "what's philosophy?"
  {
    var t := "What's Philosophy?";
    forall i | 0 <= i < |t| ensures Lower(t)[i] == "what's philosophy?"[i] {}
  }

  lemma WhatsPhilosophyKeep()
    ensures KeepWordsAndSpaces("what's philosophy?") == "whats philosophy"
  {
    var a := "what";
    var b := "s philosophy";
    assert forall i :: 0 <= i < |a| ==> IsWordChar(a[i]) || IsSpace(a[i]);
    assert forall i :: 0 <= i < |b| ==> IsWordChar(b[i]) || IsSpace(b[i]);
    KeepDropTwo(a, '\'', b, '?');
    WhatsPhilosophyParts();
  }

  lemma WhatsPhilosophyParts()
    ensures "what" + ['\''] + "s philosophy" + ['?'] == "what's philosophy?"
    ensures "what" + "s philosophy" == "whats philosophy"
  {
  }

  lemma WhatsPhilosophyTrim()
    ensures Trim("whats philosophy") == "whats philosophy"
  {
    var l := "whats philosophy";
    assert l[0] == 'w' && l[|l| - 1] == 'y';
  }

  lemma WhatsPhilosophyClean()
    ensures CleanTitle("What's Philosophy?") == Join(["whats", "philosophy"], " ")
  {
    WhatsPhilosophyLower();
    WhatsPhilosophyKeep();
    WhatsPhilosophyTrim();
    WhatsPhilosophyJoin();
  }

  lemma WhatsPhilosophyJoin()
    ensures Join(["whats", "philosophy"], " ") == "whats philosophy"
  {
  }

  lemma WhatsPhilosophyWords()
    ensures Words(["whats", "philosophy"])
  {
    var ws := ["whats", "philosophy"];
    forall k | 0 <= k < |ws| ensures ws[k] != [] && NoSpace(ws[k]) {
      forall i | 0 <= i < |ws[k]| ensures !IsSpace(ws[k][i]) {}
    }
  }

  lemma WhatsPhilosophyPick()
    ensures Join(FirstTwo(DropCommonWords(["whats", "philosophy"])), "-") + ".html" == "whats-philosophy.html"
  {
    assert DropCommonWords(["whats", "philosophy"]) == ["whats", "philosophy"];
    assert Join(["whats", "philosophy"], "-") == "whats-philosophy";
  }

  lemma WhatsPhilosophyBlank()
    ensures ' ' in "What's Philosophy?"
  {
    assert "What's Philosophy?"[6] == ' ';
  }

  /** Blanks around and between the words of a title change nothing. */
  lemma ExtraWhitespace()
    ensures GenerateFileName("  Hello   World  ") == "hello-world.html"
  {
    ExtraWhitespaceSplit();
    HelloWorldPick();
    ExtraWhitespaceBlank();
    NameOfSplit("  Hello   World  ", ["hello", "world"]);
  }

  lemma ExtraWhitespaceLower()
    ensures Lower("  Hello   World  ") == "  hello   world  "
  {
    var t := "  Hello   World  ";
    forall i | 0 <= i < |t| ensures Lower(t)[i] == "  hello   world  "[i] {}
  }

  lemma ExtraWhitespaceKeep()
    ensures KeepWordsAndSpaces("  hello   world  ") == "  hello   world  "
  {
    var l := "  hello   world  ";
    forall i | 0 <= i < |l| ensures IsWordChar(l[i]) || IsSpace(l[i]) {}
    KeepWordsAndSpacesKeeps(l);
  }

  lemma ExtraWhitespaceTrim()
    ensures Trim("  hello   world  ") == "hello   world"
  {
    ExtraWhitespaceTrimStart();
    ExtraWhitespaceTrimEnd();
  }

  lemma ExtraWhitespaceTrimStart()
    ensures TrimStart("  hello   world  ") == "hello   world  "
  {
    assert "  hello   world  " == [' '] + ([' '] + "hello   world  ");
    TrimStartBlank(' ', [' '] + "hello   world  ");
    TrimStartBlank(' ', "hello   world  ");
  }

  lemma ExtraWhitespaceTrimEnd()
    ensures TrimEnd("hello   world  ") == "hello   world"
  {
    assert "hello   world  " == "hello   world" + [' '] + [' '];
    TrimEndSpace("hello   world" + [' '], ' ');
    TrimEndSpace("hello   world", ' ');
  }

  lemma ExtraWhitespaceSplit()
    ensures SplitOnSpaces(CleanTitle("  Hello   World  ")) == ["hello", "world"]
  {
    ExtraWhitespaceClean();
    ExtraWhitespaceRun();
  }

  lemma ExtraWhitespaceClean()
    ensures CleanTitle("  Hello   World  ") == "hello   world"
  {
    ExtraWhitespaceLower();
    ExtraWhitespaceKeep();
    ExtraWhitespaceTrim();
  }

  lemma ExtraWhitespaceRun()
    ensures SplitOnSpaces("hello   world") == ["hello", "world"]
  {
    ExtraWhitespaceParts();
    ExtraWhitespaceWorld();
    SplitWordBlank("hello", "   world");
  }

  lemma ExtraWhitespaceParts()
    ensures "hello" + "   world" == "hello   world"
    ensures "   world"[1..] == "  world"
    ensures NoSpace("hello")
  {
    var w := "hello";
    forall i | 0 <= i < |w| ensures !IsSpace(w[i]) {}
  }

  lemma ExtraWhitespaceWorld()
    ensures SplitOnSpaces(TrimStart("  world")) == ["world"]
  {
    ExtraWhitespaceWorldTrim();
    HelloWorldWords();
    assert Words(["world"]) by {
      assert ["hello", "world"][1] == "world";
    }
    SplitJoin(["world"]);
  }

  lemma ExtraWhitespaceWorldTrim()
    ensures TrimStart("  world") == "world"
  {
    assert "  world" == [' '] + ([' '] + "world");
    TrimStartBlank(' ', [' '] + "world");
    TrimStartBlank(' ', "world");
  }

  lemma ExtraWhitespaceBlank()
    ensures ' ' in "  Hello   World  "
  {
    assert "  Hello   World  "[0] == ' ';
  }
}
