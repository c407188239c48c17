/** The dictionary service on the sample inputs its own documentation gives.
    Each sample is a parameter fixed by a `requires`, so that the proofs go
    through the general lemmas rather than by evaluating the parser. */
module DictionaryExamples {
  import opened Optional
  import opened Text
  import opened Models
  import opened Dictionary

  /** The gloss of `"interj. 喂, 嘿"` is `"喂, 嘿"`. */
  lemma ExtractChineseOnlyExample(translation: string)
    requires translation == "interj. 喂, 嘿"
    ensures ExtractChineseOnly(Some(translation)) == Some("喂, 嘿")
  {
    assert translation == "interj" + "." + " " + "喂, 嘿" + "" + "";
    ExtractTaggedGloss("interj", " ", "喂, 嘿", "", "");
  }

  /** Blank padding followed by a stripped, separator-free text is one sense. */
  lemma OneSense(pad: string, t: string)
    requires AllSpace(pad) && NoneIn(pad, SenseSeparators)
    requires t != [] && IsStripped(t) && NoneIn(t, SenseSeparators)
    ensures SenseList(pad + t) == [Sense(t)]
  {
    var s := pad + t;
    assert NoneIn(s, SenseSeparators) by {
      forall i | 0 <= i < |s| ensures s[i] !in SenseSeparators {
        if i < |pad| { assert s[i] == pad[i]; } else { assert s[i] == t[i - |pad|]; }
      }
    }
    SenseListSingle(s);
    assert Strip(s) == t by {
      assert pad + t + [] == s;
      StripExact(pad, t, []);
    }
  }

  lemma SingleSense(a: string)
    requires a != [] && IsStripped(a) && NoneIn(a, SenseSeparators)
    ensures SenseList(a) == [Sense(a)]
  {
    assert [] + a == a;
    OneSense([], a);
  }

  lemma PaddedSense(b: string)
    requires b != [] && IsStripped(b) && NoneIn(b, SenseSeparators)
    ensures SenseList([' '] + b) == [Sense(b)]
  {
    OneSense([' '], b);
  }

  lemma SemicolonSpace(a: string, b: string)
    ensures a + "; " + b == a + [';'] + ([' '] + b)
  {
  }

  /** Two senses separated by `"; "`. */
  lemma SenseListPair(a: string, b: string)
    requires a != [] && IsStripped(a) && NoneIn(a, SenseSeparators)
    requires b != [] && IsStripped(b) && NoneIn(b, SenseSeparators)
    ensures SenseList(a + "; " + b) == [Sense(a), Sense(b)]
  {
    SemicolonSpace(a, b);
    SenseListAppend(a, ';', [' '] + b);
    SingleSense(a);
    PaddedSense(b);
  }

  /** A line with non-space ends is its own strip. */
  lemma StrippedLine(line: string)
    requires IsStripped(line)
    ensures Strip(line) == line
  {
    assert [] + line + [] == line;
    StripExact([], line, []);
  }

  /** A line `tag. a; b`, as the parser classifies it. */
  lemma TaggedLine(line: string, tag: string, a: string, b: string)
    requires tag != [] && AllLetters(tag)
    requires a != [] && IsStripped(a) && NoneIn(a, SenseSeparators)
    requires b != [] && IsStripped(b) && NoneIn(b, SenseSeparators)
    requires '\n' !in line
    requires line == tag + ". " + a + "; " + b
    ensures Classify(line) == Tagged(NormalizePos(tag), [Sense(a), Sense(b)])
  {
    var body := a + "; " + b;
    assert line == tag + "." + " " + body;
    assert IsStripped(line) by {
      assert line[0] == tag[0] && IsAsciiLetter(tag[0]);
      assert line[|line| - 1] == b[|b| - 1];
    }
    StrippedLine(line);
    MatchTagComplete(line, tag, " ", body);
    SenseListPair(a, b);
  }

  lemma NormalizeAbbreviations()
    ensures NormalizePos("n") == "noun" && NormalizePos("v") == "verb"
  {
    assert Lower("n") == "n";
    assert Lower("v") == "v";
  }

  /** A text without line breaks is one line. */
  lemma OneLine(s: string)
    requires '\n' !in s
    ensures Split(s, '\n') == [s]
  {
    assert NoneIn(s, {'\n'});
    SplitAnyNone(s, {'\n'});
  }

  lemma NounLine(line: string)
    requires line == "n. 测试; 考验"
    ensures '\n' !in line
    ensures Classify(line) == Tagged("noun", [Sense("测试"), Sense("考验")])
  {
    NormalizeAbbreviations();
    TaggedLine(line, "n", "测试", "考验");
  }

  lemma VerbLine(line: string)
    requires line == "v. 测试; 检验"
    ensures '\n' !in line
    ensures Classify(line) == Tagged("verb", [Sense("测试"), Sense("检验")])
  {
    NormalizeAbbreviations();
    TaggedLine(line, "v", "测试", "检验");
  }

  /** Two lines joined by a break split back into the two lines. */
  lemma TwoLines(text: string, first: string, second: string)
    requires '\n' !in first && '\n' !in second
    requires text == first + "\n" + second
    ensures Split(text, '\n') == [first, second]
  {
    assert text == first + ['\n'] + second;
    SplitAnyAppend(first, '\n', second, {'\n'});
    OneLine(first);
    OneLine(second);
  }

  /** Two tagged lines give two groups, each with its own senses. */
  lemma ParseDefinitionsExample(text: string, first: string, second: string)
    requires first == "n. 测试; 考验" && second == "v. 测试; 检验"
    requires text == first + "\n" + second
    ensures ParseDefinitions(text) == [
      Meaning("noun", [Sense("测试"), Sense("考验")]),
      Meaning("verb", [Sense("测试"), Sense("检验")])]
  {
    var s1 := [Sense("测试"), Sense("考验")];
    var s2 := [Sense("测试"), Sense("检验")];
    NounLine(first);
    VerbLine(second);
    var ks := ClassifyAll(Split(text, '\n'));
    assert |ks| == 2 && ks[0] == Tagged("noun", s1) && ks[1] == Tagged("verb", s2) by {
      TwoLines(text, first, second);
    }
    ParseIsGrouping(text);
    GroupTwoTags(ks, "noun", s1, "verb", s2);
  }

  /** Two tagged lines in a row, each with senses, are two groups. */
  lemma GroupTwoTags(ks: seq<Line>, p1: string, s1: seq<Definition>, p2: string, s2: seq<Definition>)
    requires |ks| == 2 && ks[0] == Tagged(p1, s1) && ks[1] == Tagged(p2, s2)
    requires s1 != [] && s2 != []
    ensures Grouped(ks) == [Meaning(p1, s1), Meaning(p2, s2)]
  {
    var k2 := Tagged(p2, s2);
    assert LeadSenses(ks) == [];
    assert FromFirstTag(ks) == ks;
    assert ks[1..] == [k2];
    assert LeadSenses([k2]) == [];
    assert FromFirstTag([k2]) == [k2];
    assert [k2][1..] == [];
    assert Block(p2, s2, []) == [Meaning(p2, s2)] by {
      assert s2 + [] == s2;
    }
    assert Block(p1, s1, [k2]) == [Meaning(p1, s1)] + Blocks([k2]) by {
      assert s1 + [] == s1;
    }
  }
}
