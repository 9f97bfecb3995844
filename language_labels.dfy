/**
 * The language pickers: each code of the registry is shown as the label
 * "name (code)", and the chosen label is turned back into a code by taking
 * the text after its last space and stripping parentheses from both ends.
 */
module LanguageLabels {
  import opened Strings

  /**
   * The registry of language codes and their display names, in the order the
   * source lists them, written as blocks of twelve so that each block's codes
   * can be checked on their own.
   */
  const Block0: map<string, string> := map[
    "af" := "afrikaans", "sq" := "albanian", "am" := "amharic", "ar" := "arabic",
    "hy" := "armenian", "az" := "azerbaijani", "eu" := "basque", "be" := "belarusian",
    "bn" := "bengali", "bs" := "bosnian", "bg" := "bulgarian", "ca" := "catalan"
  ]
  const Block1: map<string, string> := map[
    "ceb" := "cebuano", "ny" := "chichewa", "zh-cn" := "chinese (simplified)",
    "zh-tw" := "chinese (traditional)", "co" := "corsican", "hr" := "croatian", "cs" := "czech",
    "da" := "danish", "nl" := "dutch", "en" := "english", "eo" := "esperanto", "et" := "estonian"
  ]
  const Block2: map<string, string> := map[
    "tl" := "filipino", "fi" := "finnish", "fr" := "french", "fy" := "frisian", "gl" := "galician",
    "ka" := "georgian", "de" := "german", "el" := "greek", "gu" := "gujarati",
    "ht" := "haitian creole", "ha" := "hausa", "haw" := "hawaiian"
  ]
  const Block3: map<string, string> := map[
    "iw" := "hebrew", "hi" := "hindi", "hmn" := "hmong", "hu" := "hungarian", "is" := "icelandic",
    "ig" := "igbo", "id" := "indonesian", "ga" := "irish", "it" := "italian", "ja" := "japanese",
    "jw" := "javanese", "kn" := "kannada"
  ]
  const Block4: map<string, string> := map[
    "kk" := "kazakh", "km" := "khmer", "ko" := "korean", "ku" := "kurdish (kurmanji)",
    "ky" := "kyrgyz", "lo" := "lao", "la" := "latin", "lv" := "latvian", "lt" := "lithuanian",
    "lb" := "luxembourgish", "mk" := "macedonian", "mg" := "malagasy"
  ]
  const Block5: map<string, string> := map[
    "ms" := "malay", "ml" := "malayalam", "mt" := "maltese", "mi" := "maori", "mr" := "marathi",
    "mn" := "mongolian", "my" := "myanmar (burmese)", "ne" := "nepali", "no" := "norwegian",
    "ps" := "pashto", "fa" := "persian", "pl" := "polish"
  ]
  const Block6: map<string, string> := map[
    "pt" := "portuguese", "pa" := "punjabi", "ro" := "romanian", "ru" := "russian",
    "sm" := "samoan", "gd" := "scots gaelic", "sr" := "serbian", "st" := "sesotho",
    "sn" := "shona", "sd" := "sindhi", "si" := "sinhala", "sk" := "slovak"
  ]
  const Block7: map<string, string> := map[
    "sl" := "slovenian", "so" := "somali", "es" := "spanish", "su" := "sundanese",
    "sw" := "swahili", "sv" := "swedish", "tg" := "tajik", "ta" := "tamil", "te" := "telugu",
    "th" := "thai", "tr" := "turkish", "uk" := "ukrainian"
  ]
  const Block8: map<string, string> := map[
    "ur" := "urdu", "uz" := "uzbek", "vi" := "vietnamese", "cy" := "welsh", "xh" := "xhosa",
    "yi" := "yiddish", "yo" := "yoruba", "zu" := "zulu", "fil" := "Filipino", "he" := "Hebrew"
  ]

  /** The whole registry (its codes are distinct, so the blocks do not overlap). */
  const Languages: map<string, string> :=
    Block0 + Block1 + Block2 + Block3 + Block4 + Block5 + Block6 + Block7 + Block8

  const Parens: set<char> := {'(', ')'}

  predicate IsParen(c: char)
    ensures IsParen(c) <==> c in Parens
  {
    c == '(' || c == ')'
  }

  /** `f"{name} ({code})"` */
  function Label(name: string, code: string): (shown: string)
    ensures |shown| == |name| + |code| + 3
    ensures shown[|name|] == ' ' && shown[|name| + 1] == '(' && shown[|shown| - 1] == ')'
  {
    name + " (" + code + ")"
  }

  /** `label.split(' ')[-1].strip('()')` */
  function ParseLabel(shown: string): (code: string)
    ensures |code| <= |shown| && LabelSafe(code)
  {
    Strip(AfterLast(shown, ' '), Parens)
  }

  /** A code survives the label round trip: no space in it, no parenthesis at either end. */
  predicate LabelSafe(code: string)
  {
    ' ' !in code && (code == [] || (!IsParen(code[0]) && !IsParen(code[|code| - 1])))
  }

  /** A space inside the code cuts the parsed text short. */
  lemma ParseCutBySpace(name: string, code: string)
    requires ' ' in code
    ensures |ParseLabel(Label(name, code))| < |code|
  {
    var full := Label(name, code);
    var i :| 0 <= i < |code| && code[i] == ' ';
    assert full[|name| + 2 + i] == ' ';
    AfterLastBound(full, ' ', |name| + 2 + i);
    var r := AfterLast(full, ' ');
    assert full[|full| - 1] == ')';
    assert r != [] && r[|r| - 1] == ')';
    StripBound(r, Parens, 0, 1);
  }

  lemma AfterLastAfterSpace(name: string, t: string)
    requires ' ' !in t
    ensures AfterLast((name + " ") + t, ' ') == t
  {
    AfterLastOfTail(name + " ", ' ', t);
  }

  /** Without a space in the code, the parser sees the parenthesised code. */
  lemma ParseSeesParenthesisedCode(name: string, code: string)
    requires ' ' !in code
    ensures ParseLabel(Label(name, code)) == Strip("(" + code + ")", Parens)
  {
    var t := "(" + code + ")";
    assert Label(name, code) == (name + " ") + t;
    AfterLastAfterSpace(name, t);
  }

  /** A code that neither starts nor ends with a parenthesis comes back out of its parentheses unchanged. */
  lemma StripKeepsPlainCode(code: string)
    requires code != [] && !IsParen(code[0]) && !IsParen(code[|code| - 1])
    ensures Strip("(" + code + ")", Parens) == code
  {
    var t := "(" + code + ")";
    assert t[0] in Parens && t[1..] == code + ")";
    assert StripLeading(t, Parens) == StripLeading(code + ")", Parens);
    assert (code + ")")[0] !in Parens;
    assert StripLeading(code + ")", Parens) == code + ")";
    assert (code + ")")[..|code|] == code;
    assert StripTrailing(code + ")", Parens) == StripTrailing(code, Parens);
    assert StripTrailing(code, Parens) == code;
  }

  /** Stripping the parentheses around a code gives the code back exactly when it neither starts nor ends with one. */
  lemma StripParenthesised(code: string)
    ensures Strip("(" + code + ")", Parens) == code <==> (code == [] || (!IsParen(code[0]) && !IsParen(code[|code| - 1])))
  {
    var t := "(" + code + ")";
    if code == [] {
      StripBound(t, Parens, 2, 0);
    } else if IsParen(code[0]) {
      StripBound(t, Parens, 2, 1);
    } else if IsParen(code[|code| - 1]) {
      StripBound(t, Parens, 1, 2);
    } else {
      StripKeepsPlainCode(code);
    }
  }

  /** Parsing the label of a code gives the code back exactly when the code is label-safe, whatever the name. */
  lemma LabelRoundTrip(name: string, code: string)
    ensures ParseLabel(Label(name, code)) == code <==> LabelSafe(code)
  {
    if ' ' in code {
      ParseCutBySpace(name, code);
    } else {
      ParseSeesParenthesisedCode(name, code);
      StripParenthesised(code);
    }
  }

  lemma Block0IsLabelSafe()
    ensures forall code :: code in Block0 ==> LabelSafe(code)
  {
  }

  lemma Block1IsLabelSafe()
    ensures forall code :: code in Block1 ==> LabelSafe(code)
  {
  }

  lemma Block2IsLabelSafe()
    ensures forall code :: code in Block2 ==> LabelSafe(code)
  {
  }

  lemma Block3IsLabelSafe()
    ensures forall code :: code in Block3 ==> LabelSafe(code)
  {
  }

  lemma Block4IsLabelSafe()
    ensures forall code :: code in Block4 ==> LabelSafe(code)
  {
  }

  lemma Block5IsLabelSafe()
    ensures forall code :: code in Block5 ==> LabelSafe(code)
  {
  }

  lemma Block6IsLabelSafe()
    ensures forall code :: code in Block6 ==> LabelSafe(code)
  {
  }

  lemma Block7IsLabelSafe()
    ensures forall code :: code in Block7 ==> LabelSafe(code)
  {
  }

  lemma Block8IsLabelSafe()
    ensures forall code :: code in Block8 ==> LabelSafe(code)
  {
  }

  /** Every code of the registry is label-safe. */
  lemma RegistryCodesAreLabelSafe()
    ensures forall code :: code in Languages ==> LabelSafe(code)
  {
    Block0IsLabelSafe(); Block1IsLabelSafe(); Block2IsLabelSafe(); Block3IsLabelSafe(); Block4IsLabelSafe(); Block5IsLabelSafe(); Block6IsLabelSafe(); Block7IsLabelSafe(); Block8IsLabelSafe();
  }

  /** For every code of the registry, the label shown for it parses back to that code. */
  lemma RegistryRoundTrip(code: string)
    requires code in Languages
    ensures ParseLabel(Label(Languages[code], code)) == code
  {
    RegistryCodesAreLabelSafe();
    LabelRoundTrip(Languages[code], code);
  }

  /**
   * The values one picker offers: one label per code, in the order given, each
   * naming the code's language in `registry` (the pickers use `Languages`).
   */
  function Choices(registry: map<string, string>, codes: seq<string>): (labels: seq<string>)
    requires forall i :: 0 <= i < |codes| ==> codes[i] in registry
    ensures |labels| == |codes|
    ensures forall i :: 0 <= i < |codes| ==> labels[i] == Label(registry[codes[i]], codes[i])
  {
    seq(|codes|, i requires 0 <= i < |codes| => Label(registry[codes[i]], codes[i]))
  }

  /** Whatever entry of a picker is chosen, parsing it gives the code it was made from. */
  lemma ChoicesRoundTrip(codes: seq<string>)
    requires forall i :: 0 <= i < |codes| ==> codes[i] in Languages
    ensures |Choices(Languages, codes)| == |codes|
    ensures forall i :: 0 <= i < |codes| ==> ParseLabel(Choices(Languages, codes)[i]) == codes[i]
  {
    RegistryCodesAreLabelSafe();
    LabelsRoundTrip(Languages, codes);
  }

  /** The labels made from the codes of a registry whose codes are all label-safe parse back to those codes. */
  lemma {:induction false} LabelsRoundTrip(registry: map<string, string>, codes: seq<string>)
    requires forall code :: code in registry ==> LabelSafe(code)
    requires forall i :: 0 <= i < |codes| ==> codes[i] in registry
    ensures |Choices(registry, codes)| == |codes|
    ensures forall i :: 0 <= i < |codes| ==> ParseLabel(Choices(registry, codes)[i]) == codes[i]
  {
    forall i | 0 <= i < |codes|
      ensures ParseLabel(Choices(registry, codes)[i]) == codes[i]
    {
      LabelRoundTrip(registry[codes[i]], codes[i]);
    }
  }

  /**
   * The pickers start on the labels of "en" and "pt" (english and portuguese),
   * which parse to those codes; a name holding spaces and parentheses of its
   * own, as in "chinese (simplified) (zh-cn)", does not disturb the parse.
   */
  lemma LabelExamples()
    ensures ParseLabel(Label("english", "en")) == "en"
    ensures ParseLabel(Label("portuguese", "pt")) == "pt"
    ensures ParseLabel(Label("chinese (simplified)", "zh-cn")) == "zh-cn"
  {
    assert LabelSafe("en") && LabelSafe("pt") && LabelSafe("zh-cn");
    LabelRoundTrip("english", "en");
    LabelRoundTrip("portuguese", "pt");
    LabelRoundTrip("chinese (simplified)", "zh-cn");
  }

}
