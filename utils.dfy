/**
 * Name formatting: `uppercase_first_letter` and `split_capitalize`
 * (src/utils.rs), plus `append_padding`, which the display code calls on
 * labels and names.
 *
 * Upper-casing is modelled on ASCII letters only; every other character is
 * left as it is.
 */
module Utils {

  /** The no-break space that `append_padding` puts in front of a cell. */
  const Padding: char := '\U{00A0}'

  /** ASCII upper-casing of a single character. */
  function ToUpper(c: char): char
  {
    if 'a' <= c <= 'z' then (c as int - 32) as char else c
  }

  /** `uppercase_first_letter`: the first character upper-cased, the rest unchanged. */
  function UppercaseFirstLetter(s: string): (r: string)
    ensures |r| == |s|
    ensures s != [] ==> r[0] == ToUpper(s[0]) && r[1..] == s[1..]
  {
    if s == [] then "" else [ToUpper(s[0])] + s[1..]
  }

  /** Upper-casing the first letter twice is the same as doing it once. */
  lemma UppercaseFirstLetterIdempotent(s: string)
    ensures UppercaseFirstLetter(UppercaseFirstLetter(s)) == UppercaseFirstLetter(s)
  {
  }

  /**
   * `str::split(sep)`: the pieces between separators, empty pieces included;
   * `n` separators give `n + 1` pieces, none of which contains the separator.
   */
  function Split(s: string, sep: char): (parts: seq<string>)
    ensures |parts| == multiset(s)[sep] + 1
    ensures forall k :: 0 <= k < |parts| ==> sep !in parts[k]
    decreases |s|
  {
    if s == [] then [""]
    else
      var rest := Split(s[1..], sep);
      assert s == [s[0]] + s[1..];
      if s[0] == sep then [""] + rest
      else [[s[0]] + rest[0]] + rest[1..]
  }

  /** `join(sep)`: the parts with `sep` between each two neighbours. */
  function Join(parts: seq<string>, sep: string): string
    decreases |parts|
  {
    if |parts| == 0 then ""
    else if |parts| == 1 then parts[0]
    else parts[0] + sep + Join(parts[1..], sep)
  }

  /** Joining the pieces of a split with the same separator gives back the input. */
  lemma {:induction false} JoinSplit(s: string, sep: char)
    ensures Join(Split(s, sep), [sep]) == s
    decreases |s|
  {
    if s != [] {
      JoinSplit(s[1..], sep);
      JoinSplitCons(s[0], s[1..], sep);
      assert s == [s[0]] + s[1..];
    }
  }

  /** The induction step of `JoinSplit`: one more character in front. */
  lemma JoinSplitCons(c: char, t: string, sep: char)
    requires Join(Split(t, sep), [sep]) == t
    ensures Join(Split([c] + t, sep), [sep]) == [c] + t
  {
    var s := [c] + t;
    assert s[0] == c && s[1..] == t;
    var rest := Split(t, sep);
    if c == sep {
      assert Split(s, sep) == [""] + rest;
      JoinAfterEmpty(rest, [sep]);
    } else {
      assert Split(s, sep) == [[c] + rest[0]] + rest[1..];
      JoinExtendFirst(c, rest, [sep]);
    }
  }

  /** An empty first part leaves just the separator in front of the rest. */
  lemma JoinAfterEmpty(rest: seq<string>, sep: string)
    requires |rest| > 0
    ensures Join([""] + rest, sep) == sep + Join(rest, sep)
  {
    assert ([""] + rest)[1..] == rest;
  }

  /** A character put in front of the first part comes first in the joined text. */
  lemma JoinExtendFirst(c: char, rest: seq<string>, sep: string)
    requires |rest| > 0
    ensures Join([[c] + rest[0]] + rest[1..], sep) == [c] + Join(rest, sep)
  {
    var parts := [[c] + rest[0]] + rest[1..];
    if |rest| > 1 {
      assert parts[1..] == rest[1..];
    }
  }

  /** `append_padding`: a no-break space in front of the text. */
  function AppendPadding(s: string): (r: string)
    ensures |r| == |s| + 1 && r[0] == Padding && r[1..] == s
  {
    [Padding] + s
  }

  /** `uppercase_first_letter` applied to each piece. */
  function CapitalizeEach(parts: seq<string>): (r: seq<string>)
    ensures |r| == |parts|
    ensures forall k :: 0 <= k < |parts| ==> r[k] == UppercaseFirstLetter(parts[k])
  {
    seq(|parts|, k requires 0 <= k < |parts| => UppercaseFirstLetter(parts[k]))
  }

  /**
   * `split_capitalize`: split on `-`, upper-case the first letter of every
   * piece and join the pieces with a single space.
   */
  function SplitCapitalize(s: string): string
  {
    Join(CapitalizeEach(Split(s, '-')), " ")
  }

  /**
   * An independent, character-by-character definition of the same
   * formatting: every `-` becomes a space and the character that starts a
   * word (at the beginning, or right after a `-`) is upper-cased.
   */
  function CapitalizeWords(s: string, atWordStart: bool): string
    decreases |s|
  {
    if s == [] then ""
    else if s[0] == '-' then " " + CapitalizeWords(s[1..], true)
    else [if atWordStart then ToUpper(s[0]) else s[0]] + CapitalizeWords(s[1..], false)
  }

  lemma {:induction false} CapitalizeWordsNoDash(s: string)
    requires '-' !in s
    ensures CapitalizeWords(s, true) == UppercaseFirstLetter(s)
    ensures CapitalizeWords(s, false) == s
    decreases |s|
  {
    if s != [] {
      assert '-' !in s[1..] by { assert forall c :: c in s[1..] ==> c in s; }
      CapitalizeWordsNoDash(s[1..]);
    }
  }

  lemma {:induction false} CapitalizeWordsAtDash(a: string, t: string, atWordStart: bool)
    requires '-' !in a
    ensures CapitalizeWords(a + "-" + t, atWordStart) ==
            CapitalizeWords(a, atWordStart) + " " + CapitalizeWords(t, true)
    decreases |a|
  {
    if a == [] {
      assert a + "-" + t == "-" + t;
      assert ("-" + t)[1..] == t;
    } else {
      assert (a + "-" + t)[1..] == a[1..] + "-" + t;
      assert '-' !in a[1..] by { assert forall c :: c in a[1..] ==> c in a; }
      CapitalizeWordsAtDash(a[1..], t, false);
    }
  }

  lemma {:induction false} CapitalizeWordsOfJoin(parts: seq<string>)
    requires |parts| >= 1
    requires forall k :: 0 <= k < |parts| ==> '-' !in parts[k]
    ensures CapitalizeWords(Join(parts, "-"), true) == Join(CapitalizeEach(parts), " ")
    decreases |parts|
  {
    if |parts| == 1 {
      CapitalizeWordsNoDash(parts[0]);
    } else {
      var rest := parts[1..];
      CapitalizeWordsOfJoin(rest);
      CapitalizeWordsAtDash(parts[0], Join(rest, "-"), true);
      CapitalizeWordsNoDash(parts[0]);
      assert CapitalizeEach(parts)[1..] == CapitalizeEach(rest);
    }
  }

  /** `split_capitalize` agrees with the character-by-character definition. */
  lemma SplitCapitalizeIsCapitalizeWords(s: string)
    ensures SplitCapitalize(s) == CapitalizeWords(s, true)
  {
    JoinSplit(s, '-');
    CapitalizeWordsOfJoin(Split(s, '-'));
  }

  lemma {:induction false} CapitalizeWordsShape(s: string, atWordStart: bool)
    ensures |CapitalizeWords(s, atWordStart)| == |s|
    ensures '-' !in CapitalizeWords(s, atWordStart)
    ensures multiset(CapitalizeWords(s, atWordStart))[' '] == multiset(s)[' '] + multiset(s)['-']
    decreases |s|
  {
    if s != [] {
      var w := CapitalizeWords(s, atWordStart);
      var tail := CapitalizeWords(s[1..], s[0] == '-');
      CapitalizeWordsShape(s[1..], s[0] == '-');
      assert s == [s[0]] + s[1..];
      assert w == [w[0]] + tail;
    }
  }

  /**
   * `split_capitalize` keeps the length of its input, leaves no `-` behind,
   * and adds exactly one space per `-` it removes.
   */
  lemma SplitCapitalizeShape(s: string)
    ensures |SplitCapitalize(s)| == |s|
    ensures '-' !in SplitCapitalize(s)
    ensures multiset(SplitCapitalize(s))[' '] == multiset(s)[' '] + multiset(s)['-']
  {
    SplitCapitalizeIsCapitalizeWords(s);
    CapitalizeWordsShape(s, true);
  }

  /** Without any `-`, `split_capitalize` only upper-cases the first letter. */
  lemma SplitCapitalizeWithoutDash(s: string)
    requires '-' !in s
    ensures SplitCapitalize(s) == UppercaseFirstLetter(s)
  {
    SplitCapitalizeIsCapitalizeWords(s);
    CapitalizeWordsNoDash(s);
  }

  /** Formatting an already formatted name changes nothing. */
  lemma SplitCapitalizeIdempotent(s: string)
    ensures SplitCapitalize(SplitCapitalize(s)) == SplitCapitalize(s)
  {
    var once := SplitCapitalize(s);
    SplitCapitalizeShape(s);
    SplitCapitalizeWithoutDash(once);
    SplitCapitalizeIsCapitalizeWords(s);
  }

  /** Names as the API spells them and as the display shows them. */
  lemma SplitCapitalizeRaichu()
    ensures SplitCapitalize("raichu") == "Raichu"
  {
    SplitCapitalizeIsCapitalizeWords("raichu");
    CapitalizeWordsRaichu();
  }

  lemma CapitalizeWordsRaichu()
    ensures CapitalizeWords("raichu", true) == "Raichu"
  {
    CapitalizeWordsOneWord('r', "aichu");
  }

  lemma CapitalizeWordsOneWord(c: char, rest: string)
    requires c != '-' && '-' !in rest
    ensures CapitalizeWords([c] + rest, true) == [ToUpper(c)] + rest
  {
    assert ([c] + rest)[1..] == rest;
    CapitalizeWordsNoDash(rest);
  }

  lemma SplitCapitalizeSharpFang()
    ensures SplitCapitalize("sharp fang") == "Sharp fang"
  {
    SplitCapitalizeWithoutDash("sharp fang");
    UppercaseSharpFang();
  }

  lemma UppercaseSharpFang()
    ensures UppercaseFirstLetter("sharp fang") == "Sharp fang"
  {
  }

  /** Empty pieces survive: two `-` in a row become two spaces. */
  lemma SplitCapitalizeEmptyPieces()
    ensures SplitCapitalize("a--b") == "A  B"
  {
    SplitCapitalizeIsCapitalizeWords("a--b");
    CapitalizeWordsTwoDashes('a', 'b');
  }

  lemma CapitalizeWordsTwoDashes(a: char, b: char)
    requires a != '-' && b != '-'
    ensures CapitalizeWords([a, '-', '-', b], true) == [ToUpper(a), ' ', ' ', ToUpper(b)]
  {
    assert CapitalizeWords([b], true) == [ToUpper(b)] by {
      assert [b][1..] == [];
    }
    assert CapitalizeWords(['-', b], true) == " " + [ToUpper(b)] by {
      assert ['-', b][1..] == [b];
    }
    assert CapitalizeWords(['-', '-', b], false) == " " + CapitalizeWords(['-', b], true) by {
      assert ['-', '-', b][1..] == ['-', b];
    }
    assert [a, '-', '-', b][1..] == ['-', '-', b];
  }
}
