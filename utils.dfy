/**
 * `toTitleCase` (src/utils.js): the name is lower-cased for the Turkish locale, split on
 * single spaces, each piece gets its first character upper-cased, and the pieces are
 * joined back with single spaces.
 */
module Utils {
  import opened Wrappers
  import Text

  /** `word.charAt(0).toLocaleUpperCase('tr-TR') + word.slice(1)`. */
  function TitleWord(w: string): string {
    if w == [] then [] else Text.TrUpper(w[0]) + w[1..]
  }

  function TitleWords(pieces: seq<string>): (r: seq<string>)
    ensures |r| == |pieces| && forall i :: 0 <= i < |pieces| ==> r[i] == TitleWord(pieces[i])
  {
    seq(|pieces|, i requires 0 <= i < |pieces| => TitleWord(pieces[i]))
  }

  /** `toTitleCase(str)`; `None` stands for null or undefined. */
  function ToTitleCase(s: Option<string>): string {
    if s.None? || s.value == "" then ""
    else JoinTitled(Text.TrLowerString(s.value))
  }

  function JoinTitled(lowered: string): string {
    Text.JoinSpaces(TitleWords(Text.SplitSpaces(lowered)))
  }

  /** The same pieces with the first one left as it is. */
  function JoinTitledAfterFirst(lowered: string): string {
    var pieces := Text.SplitSpaces(lowered);
    Text.JoinSpaces([pieces[0]] + TitleWords(pieces[1..]))
  }

  // ---------------------------------------------------------------------------
  // A character-by-character reference

  /** Upper-case the characters that start a word (`atStart` for the first), keep the others. */
  function TitleChars(s: string, atStart: bool): string {
    if s == [] then []
    else (if atStart then Text.TrUpper(s[0]) else [s[0]]) + TitleChars(s[1..], s[0] == ' ')
  }

  /** Position `k` starts a word: it follows a space, or it is the first and `atStart` holds. */
  predicate StartsWord(s: string, k: int, atStart: bool)
    requires 0 <= k < |s|
  {
    (k == 0 && atStart) || (k > 0 && s[k - 1] == ' ')
  }

  /** No word of `s` starts with sharp s. */
  predicate NoSharpStart(s: string, atStart: bool) {
    forall k :: 0 <= k < |s| && StartsWord(s, k, atStart) ==> s[k] != Text.SharpS
  }

  /**
   * When no word starts with sharp s, the reference keeps the length, upper-cases exactly the
   * characters that start a word, and keeps the others.
   */
  lemma {:induction false} TitleCharsAt(s: string, atStart: bool, i: int)
    requires NoSharpStart(s, atStart)
    requires 0 <= i < |s|
    ensures |TitleChars(s, atStart)| == |s|
    ensures TitleChars(s, atStart)[i] ==
      if (i == 0 && atStart) || (i > 0 && s[i - 1] == ' ') then Text.TrUpperFirst(s[i]) else s[i]
  {
    var t := s[1..];
    var head := if atStart then Text.TrUpper(s[0]) else [s[0]];
    assert |head| == 1;
    if t != [] {
      assert NoSharpStart(t, s[0] == ' ') by {
        forall k | 0 <= k < |t| && StartsWord(t, k, s[0] == ' ') ensures t[k] != Text.SharpS {
          assert StartsWord(s, k + 1, atStart);
        }
      }
      TitleCharsAt(t, s[0] == ' ', if i == 0 then 0 else i - 1);
    }
  }

  /** A word-initial sharp s becomes "SS"; every other character keeps its one place. */
  lemma TitleCharsSharpStart(rest: string)
    ensures TitleChars([Text.SharpS] + rest, true) == "SS" + TitleChars(rest, false)
  {
    assert ([Text.SharpS] + rest)[1..] == rest;
  }

  /** Inside a word without spaces the reference changes nothing. */
  lemma {:induction false} TitleCharsInsideWord(s: string)
    requires ' ' !in s
    ensures TitleChars(s, false) == s
  {
    if s != [] {
      TitleCharsInsideWord(s[1..]);
    }
  }

  /** The reference neither adds nor removes spaces ("SS" holds none). */
  lemma {:induction false} TitleCharsSpaces(s: string, atStart: bool)
    ensures Text.CountChar(TitleChars(s, atStart), ' ') == Text.CountChar(s, ' ')
  {
    if s != [] {
      var head := if atStart then Text.TrUpper(s[0]) else [s[0]];
      TitleCharsSpaces(s[1..], s[0] == ' ');
      Text.CountCharAppend(head, TitleChars(s[1..], s[0] == ' '), ' ');
      Text.TrCaseKeepsSpace(s[0]);
      assert Text.CountChar(head, ' ') == if s[0] == ' ' then 1 else 0;
    }
  }

  /** The split-map-join pipeline agrees with the character-by-character reference. */
  lemma {:induction false} JoinTitledIsTitleChars(s: string)
    ensures JoinTitled(s) == TitleChars(s, true)
    ensures JoinTitledAfterFirst(s) == TitleChars(s, false)
  {
    if s == [] {
      var pieces := Text.SplitSpaces(s);
      assert pieces == [""];
      assert TitleWords(pieces) == [""];
      assert [pieces[0]] + TitleWords(pieces[1..]) == [""];
    } else {
      JoinTitledIsTitleChars(s[1..]);
      if s[0] == ' ' {
        JoinTitledSpaceStep(s);
        JoinTitledAfterFirstSpaceStep(s);
      } else {
        JoinTitledLetterStep(s);
        JoinTitledAfterFirstLetterStep(s);
      }
    }
  }

  /** A leading space is an empty first piece: the first pipeline emits it and titles the rest. */
  lemma JoinTitledSpaceStep(s: string)
    requires s != [] && s[0] == ' '
    requires JoinTitled(s[1..]) == TitleChars(s[1..], true)
    ensures JoinTitled(s) == TitleChars(s, true)
  {
    var rest := Text.SplitSpaces(s[1..]);
    assert Text.SplitSpaces(s) == [""] + rest;
    TitleEmptyFirst(rest);
    assert Text.TrUpper(' ') == " ";
  }

  /** An empty first piece stays empty and is followed by a space. */
  lemma TitleEmptyFirst(rest: seq<string>)
    requires |rest| >= 1
    ensures Text.JoinSpaces(TitleWords([""] + rest)) == " " + Text.JoinSpaces(TitleWords(rest))
  {
    var tw := TitleWords(rest);
    assert TitleWords([""] + rest) == [""] + tw;
    assert ([""] + tw)[1..] == tw;
  }

  /** A leading space is an empty first piece: the second pipeline emits it and titles the rest. */
  lemma JoinTitledAfterFirstSpaceStep(s: string)
    requires s != [] && s[0] == ' '
    requires JoinTitled(s[1..]) == TitleChars(s[1..], true)
    ensures JoinTitledAfterFirst(s) == TitleChars(s, false)
  {
    var rest := Text.SplitSpaces(s[1..]);
    var tw := TitleWords(rest);
    var pieces := Text.SplitSpaces(s);
    assert pieces == [""] + rest;
    assert pieces[1..] == rest;
    assert ([""] + tw)[1..] == tw;
  }

  /** A leading letter joins the first piece, which the first pipeline upper-cases. */
  lemma JoinTitledLetterStep(s: string)
    requires s != [] && s[0] != ' '
    requires JoinTitledAfterFirst(s[1..]) == TitleChars(s[1..], false)
    ensures JoinTitled(s) == TitleChars(s, true)
  {
    var rest := Text.SplitSpaces(s[1..]);
    assert Text.SplitSpaces(s) == [[s[0]] + rest[0]] + rest[1..];
    TitleFirstPiece(s[0], rest);
  }

  /** Titling pieces whose first starts with `c` upper-cases `c` and leaves the rest as the second pipeline does. */
  lemma TitleFirstPiece(c: char, rest: seq<string>)
    requires |rest| >= 1
    ensures Text.JoinSpaces(TitleWords([[c] + rest[0]] + rest[1..]))
            == Text.TrUpper(c) + Text.JoinSpaces([rest[0]] + TitleWords(rest[1..]))
  {
    var up := Text.TrUpper(c);
    var tw := TitleWords(rest[1..]);
    assert TitleWords([[c] + rest[0]] + rest[1..]) == [up + rest[0]] + tw by {
      assert ([c] + rest[0])[1..] == rest[0];
    }
    Text.JoinFirst(up, [rest[0]] + tw);
    assert ([rest[0]] + tw)[1..] == tw;
  }

  /** A leading letter joins the first piece, which the second pipeline keeps. */
  lemma JoinTitledAfterFirstLetterStep(s: string)
    requires s != [] && s[0] != ' '
    requires JoinTitledAfterFirst(s[1..]) == TitleChars(s[1..], false)
    ensures JoinTitledAfterFirst(s) == TitleChars(s, false)
  {
    var rest := Text.SplitSpaces(s[1..]);
    var tw := TitleWords(rest[1..]);
    var pieces := Text.SplitSpaces(s);
    assert pieces == [[s[0]] + rest[0]] + rest[1..];
    assert pieces[1..] == rest[1..];
    Text.JoinFirst([s[0]], [rest[0]] + tw);
    assert ([rest[0]] + tw)[1..] == tw;
  }

  // ---------------------------------------------------------------------------
  // Properties of toTitleCase

  /**
   * `toTitleCase` position by position, over the lower-cased string `l`: when no word of `l`
   * starts with sharp s, the result is as long as `l`; a position that starts `l` or follows
   * a space holds the Turkish upper case of `l`'s character there, every other position
   * `l`'s character.
   */
  lemma TitleCaseAt(s: string, i: int)
    requires NoSharpStart(Text.TrLowerString(s), true)
    requires 0 <= i < |Text.TrLowerString(s)|
    ensures |ToTitleCase(Some(s))| == |Text.TrLowerString(s)|
    ensures var l := Text.TrLowerString(s);
      ToTitleCase(Some(s))[i] == if i == 0 || l[i - 1] == ' ' then Text.TrUpperFirst(l[i]) else l[i]
  {
    var l := Text.TrLowerString(s);
    JoinTitledIsTitleChars(l);
    TitleCharsAt(l, true, i);
  }

  /** Null, undefined and the empty string give the empty string. */
  lemma TitleCaseEmpty()
    ensures ToTitleCase(None) == "" && ToTitleCase(Some("")) == ""
  {
  }

  /**
   * No word of the lowered string `l` starts with sharp s, or with a dotless i directly
   * followed by a combining dot above: the two word starts that a second title-casing changes.
   */
  predicate TitleStable(l: string) {
    && NoSharpStart(l, true)
    && forall i :: 0 <= i < |l| - 1 && StartsWord(l, i, true) && l[i] == '\U{0131}' ==> l[i + 1] != Text.DotAbove
  }

  /** `t` is `l` with the first character of every word upper-cased and nothing else changed. */
  predicate TitledFrom(t: string, l: string) {
    && |t| == |l|
    && forall i :: 0 <= i < |l| ==> t[i] == if StartsWord(l, i, true) then Text.TrUpperFirst(l[i]) else l[i]
  }

  /** Every character of `l` is its own Turkish lower case, and none is a capital I. */
  predicate LowerFixed(l: string) {
    forall i :: 0 <= i < |l| ==> l[i] != 'I' && Text.TrLower(l[i]) == l[i]
  }

  /** When no word starts with sharp s, `toTitleCase` is the lowered name with its word starts upper-cased. */
  lemma TitleCaseTitled(s: string)
    requires NoSharpStart(Text.TrLowerString(s), true)
    ensures TitledFrom(ToTitleCase(Some(s)), Text.TrLowerString(s))
  {
    var l := Text.TrLowerString(s);
    if l == [] {
      JoinTitledIsTitleChars(l);
    } else {
      TitleCaseAt(s, 0);
      forall i | 0 <= i < |l| ensures ToTitleCase(Some(s))[i] == if StartsWord(l, i, true) then Text.TrUpperFirst(l[i]) else l[i] {
        TitleCaseAt(s, i);
      }
    }
  }

  /** A title-cased lowered string holds no I before a dot above, so it lowers character by character. */
  lemma TitledNoDottedI(l: string, t: string)
    requires LowerFixed(l) && TitleStable(l) && TitledFrom(t, l)
    ensures Text.NoDottedI(t)
  {
    forall i | 0 <= i < |t| - 1 && t[i] == 'I' ensures t[i + 1] != Text.DotAbove {
      if StartsWord(l, i, true) {
        Text.TrUpperToI(l[i]);
      }
      assert !StartsWord(l, i + 1, true);
    }
  }

  /** Lowering a title-cased lowered string again keeps the word starts, and the title case is reached again. */
  lemma TitledRelowered(l: string, t: string)
    requires LowerFixed(l) && TitleStable(l) && TitledFrom(t, l)
    ensures NoSharpStart(Text.TrLowerString(t), true)
    ensures TitledFrom(t, Text.TrLowerString(t))
  {
    TitledNoDottedI(l, t);
    Text.TrLowerStringAt(t);
    var l2 := Text.TrLowerString(t);
    forall i | 0 <= i < |l| ensures l2[i] == ' ' <==> l[i] == ' ' {
      Text.TrCaseKeepsSpace(t[i]);
      Text.TrCaseKeepsSpace(l[i]);
    }
    forall i | 0 <= i < |l| ensures StartsWord(l2, i, true) == StartsWord(l, i, true) {
    }
    forall i | 0 <= i < |l| ensures
      && (StartsWord(l2, i, true) ==> l2[i] != Text.SharpS)
      && t[i] == if StartsWord(l2, i, true) then Text.TrUpperFirst(l2[i]) else l2[i]
    {
      Text.TrCaseKeepsSpace(t[i]);
      if StartsWord(l, i, true) {
        Text.TrUpperLowerUpper(l[i]);
      }
    }
  }

  /** Two strings titled from the same lowered string are equal. */
  lemma TitledUnique(t: string, u: string, l: string)
    requires TitledFrom(t, l) && TitledFrom(u, l)
    ensures t == u
  {
  }

  /** Applying `toTitleCase` twice gives the same as once, when the lowered name is TitleStable. */
  lemma TitleCaseIdempotent(s: string)
    requires TitleStable(Text.TrLowerString(s))
    ensures ToTitleCase(Some(ToTitleCase(Some(s)))) == ToTitleCase(Some(s))
  {
    var l := Text.TrLowerString(s);
    var t := ToTitleCase(Some(s));
    Text.TrLowerStringLowered(s);
    TitleCaseTitled(s);
    TitledRelowered(l, t);
    TitleCaseTitled(t);
    TitledUnique(ToTitleCase(Some(t)), t, Text.TrLowerString(t));
  }

  /** The pieces are the same in number: repeated spaces give empty pieces, which are kept. */
  lemma TitleCaseKeepsSpaces(s: string)
    ensures Text.CountChar(ToTitleCase(Some(s)), ' ') == Text.CountChar(s, ' ')
  {
    if s != "" {
      var l := Text.TrLowerString(s);
      JoinTitledIsTitleChars(l);
      TitleCharsSpaces(l, true);
      Text.TrLowerStringSpaces(s);
    }
  }

  /**
   * The title-cased string as a whole, for a name in which no I stands directly before a
   * combining dot above and no word starts with sharp s: `r` holds, at every position, the
   * Turkish upper case of the lowered character when it starts a word, the lowered
   * character otherwise.
   */
  lemma TitleCaseIs(s: string, r: string)
    requires Text.NoDottedI(s)
    requires NoSharpStart(s, true)
    requires |r| == |s|
    requires forall i :: 0 <= i < |s| ==>
      r[i] == if i == 0 || s[i - 1] == ' ' then Text.TrUpperFirst(Text.TrLower(s[i])) else Text.TrLower(s[i])
    ensures ToTitleCase(Some(s)) == r
  {
    var l := Text.TrLowerString(s);
    Text.TrLowerStringAt(s);
    forall k | 0 <= k < |s| ensures StartsWord(l, k, true) == StartsWord(s, k, true) {
      if k > 0 {
        Text.TrCaseKeepsSpace(s[k - 1]);
      }
    }
    forall k | 0 <= k < |s| && StartsWord(l, k, true) ensures l[k] != Text.SharpS {
      Text.TrCaseKeepsSpace(s[k]);
    }
    TitleCaseTitled(s);
    TitledUnique(ToTitleCase(Some(s)), r, l);
  }

  /** "ismail" becomes "İsmail": a lower-case i starting a word takes the dotted capital. */
  lemma DottedCapitalExample()
    ensures ToTitleCase(Some("ismail")) == "İsmail"
  {
    var s, r := "ismail", "İsmail";
    forall i | 0 <= i < 6 ensures
      && s[i] != Text.DotAbove && s[i] != Text.SharpS
      && r[i] == if i == 0 || s[i - 1] == ' ' then Text.TrUpperFirst(Text.TrLower(s[i])) else Text.TrLower(s[i])
    {
      if i == 0 { } else if i == 1 { } else if i == 2 { } else if i == 3 { } else if i == 4 { } else { }
    }
    TitleCaseIs(s, r);
  }

  /** "IŞIK" becomes "Işık": a capital I inside a word becomes the dotless i. */
  lemma DotlessExample()
    ensures ToTitleCase(Some("IŞIK")) == "Işık"
  {
    var s, r := "IŞIK", "Işık";
    forall i | 0 <= i < 4 ensures
      && s[i] != Text.DotAbove && s[i] != Text.SharpS
      && r[i] == if i == 0 || s[i - 1] == ' ' then Text.TrUpperFirst(Text.TrLower(s[i])) else Text.TrLower(s[i])
    {
      if i == 0 { } else if i == 1 { } else if i == 2 { } else { }
    }
    TitleCaseIs(s, r);
  }

  /** Only ' ' separates words: after a tab the next letter stays lower case. */
  lemma TabDoesNotSeparate()
    ensures ToTitleCase(Some("al\tve")) == "Al\tve"
  {
    var s, r := "al\tve", "Al\tve";
    forall i | 0 <= i < 5 ensures
      && s[i] != Text.DotAbove && s[i] != Text.SharpS
      && r[i] == if i == 0 || s[i - 1] == ' ' then Text.TrUpperFirst(Text.TrLower(s[i])) else Text.TrLower(s[i])
    {
      if i == 0 { } else if i == 1 { } else if i == 2 { } else if i == 3 { } else { }
    }
    TitleCaseIs(s, r);
  }

  /** "I" followed by a combining dot above lowers to "i", so "I", the dot and "sa" become "İsa". */
  lemma DottedIExample()
    ensures ToTitleCase(Some("I\U{0307}sa")) == "İsa"
  {
    var s, r := "isa", "İsa";
    assert "I\U{0307}sa" == ['I', Text.DotAbove] + "sa";
    Text.TrLowerDottedI("sa");
    assert s[1..] == "sa";
    assert Text.TrLowerString(s) == "i" + Text.TrLowerString("sa");
    forall i | 0 <= i < 3 ensures
      && s[i] != Text.DotAbove && s[i] != Text.SharpS
      && r[i] == if i == 0 || s[i - 1] == ' ' then Text.TrUpperFirst(Text.TrLower(s[i])) else Text.TrLower(s[i])
    {
      if i == 0 { } else if i == 1 { } else { }
    }
    TitleCaseIs(s, r);
  }

  /** A word-initial sharp s becomes "SS": "ßen" becomes "SSen", one character longer. */
  lemma SharpSExample()
    ensures ToTitleCase(Some("ßen")) == "SSen"
  {
    var s := "ßen";
    Text.TrLowerStringAt(s);
    assert Text.TrLowerString(s) == s;
    assert s == [Text.SharpS] + "en";
    JoinTitledIsTitleChars(s);
    TitleCharsSharpStart("en");
    TitleCharsInsideWord("en");
  }

  /** "SSen" becomes "Ssen": the second S is inside the word. */
  lemma DoubleSExample()
    ensures ToTitleCase(Some("SSen")) == "Ssen"
  {
    var u, r := "SSen", "Ssen";
    forall i | 0 <= i < 4 ensures
      && u[i] != Text.DotAbove && u[i] != Text.SharpS
      && r[i] == if i == 0 || u[i - 1] == ' ' then Text.TrUpperFirst(Text.TrLower(u[i])) else Text.TrLower(u[i])
    {
      if i == 0 { } else if i == 1 { } else if i == 2 { } else { }
    }
    TitleCaseIs(u, r);
  }

  /** A dotless i before a combining dot above becomes I, which then lowers together with the dot to i. */
  lemma DotlessIDotExample()
    ensures ToTitleCase(Some("\U{0131}\U{0307}")) == "I\U{0307}"
    ensures ToTitleCase(Some("I\U{0307}")) == "İ"
  {
    var s, r := "\U{0131}\U{0307}", "I\U{0307}";
    forall i | 0 <= i < 2 ensures
      && s[i] != Text.SharpS
      && r[i] == if i == 0 || s[i - 1] == ' ' then Text.TrUpperFirst(Text.TrLower(s[i])) else Text.TrLower(s[i])
    {
      if i == 0 { } else { }
    }
    TitleCaseIs(s, r);
    assert r == ['I', Text.DotAbove] + "";
    Text.TrLowerDottedI("");
    JoinTitledIsTitleChars("i");
  }

  /** Title-casing twice differs from once for a word starting with sharp s or with ı and a dot above. */
  lemma TitleCaseNotIdempotent()
    ensures ToTitleCase(Some(ToTitleCase(Some("ßen")))) != ToTitleCase(Some("ßen"))
    ensures ToTitleCase(Some(ToTitleCase(Some("\U{0131}\U{0307}")))) != ToTitleCase(Some("\U{0131}\U{0307}"))
  {
    SharpSExample();
    DoubleSExample();
    DotlessIDotExample();
  }
}
