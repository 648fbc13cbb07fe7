/** The model-id pretty-printer: `"anthropic/claude-3-opus:beta"` reads as
    `"Claude 3 Opus (Beta)"`. */
module ModelName {
  import opened Text

  /** `toUpperCase` on one character, for ASCII letters only. */
  function UpperAscii(c: char): char
  {
    if 'a' <= c <= 'z' then (c as int - 'a' as int + 'A' as int) as char else c
  }

  /** `word.charAt(0).toUpperCase() + word.slice(1)`. */
  function Capitalize(word: string): (cap: string)
    ensures |cap| == |word|
    ensures forall i :: 1 <= i < |word| ==> cap[i] == word[i]
    ensures word != [] ==> !('a' <= cap[0] <= 'z')
    ensures word != [] && 'a' <= word[0] <= 'z' ==> cap[0] as int == word[0] as int - 32
    ensures word != [] && !('a' <= word[0] <= 'z') ==> cap[0] == word[0]
  {
    if word == [] then [] else [UpperAscii(word[0])] + word[1..]
  }

  /** `.filter(Boolean)` on strings: drop the empty ones. */
  function NonEmpty(words: seq<string>): (kept: seq<string>)
    ensures forall i :: 0 <= i < |kept| ==> kept[i] != ""
    ensures forall w :: w in kept <==> w in words && w != ""
    ensures |kept| <= |words|
  {
    if words == [] then []
    else if words[0] == "" then NonEmpty(words[1..])
    else [words[0]] + NonEmpty(words[1..])
  }

  /** `.map(capitalise)`. */
  function CapitalizeAll(words: seq<string>): (caps: seq<string>)
    ensures |caps| == |words|
    ensures forall i :: 0 <= i < |caps| ==> caps[i] == Capitalize(words[i])
  {
    if words == [] then [] else [Capitalize(words[0])] + CapitalizeAll(words[1..])
  }

  /** The non-empty `-`-separated words of a name. */
  function Words(name: string): (words: seq<string>)
    ensures forall i :: 0 <= i < |words| ==> words[i] != "" && '-' !in words[i]
  {
    NonEmptyKeepsHyphenFree(Split(name, '-'));
    NonEmpty(Split(name, '-'))
  }

  /** `formattedName`: the words, each capitalised, joined by single spaces. */
  function FormatName(name: string): (formatted: string)
    ensures '-' !in formatted
  {
    CapitalizeAllHasNoHyphen(Words(name));
    JoinKeepsOut(CapitalizeAll(Words(name)), ' ', '-');
    Join(CapitalizeAll(Words(name)), ' ')
  }

  /** `modelName`: the segment between the first and second `/` when there
      is a `/`, otherwise the whole id. */
  function NamePart(mainId: string): (part: string)
    ensures '/' in mainId ==> '/' !in part
    ensures '/' !in mainId ==> part == mainId
  {
    if '/' in mainId then
      assert multiset(mainId)['/'] > 0;
      Split(mainId, '/')[1]
    else mainId
  }

  /** `prettyModelName`. The id splits on `:` into the main id and the tag;
      pieces after the second `:` are ignored, and an empty or missing tag
      adds nothing. */
  function PrettyModelName(modelId: string): (pretty: string)
    ensures modelId == "" ==> pretty == ""
  {
    if modelId == "" then ""
    else
      var pieces := Split(modelId, ':');
      var mainId := pieces[0];
      var tag := if |pieces| > 1 then pieces[1] else "";
      var formattedName := FormatName(NamePart(mainId));
      if tag != "" then formattedName + " (" + Capitalize(tag) + ")"
      else formattedName
  }

  // ---------------------------------------------------------------------
  // Splitting the id

  /** An id without `:` is formatted from its name part alone. */
  lemma UntaggedId(mainId: string)
    requires mainId != "" && ':' !in mainId
    ensures PrettyModelName(mainId) == FormatName(NamePart(mainId))
  {
    SplitWithoutSeparator(mainId, ':');
  }

  /** With `mainId:tag` at the front of the id (and nothing after it but
      another `:` piece), a non-empty tag is capitalised in parentheses
      after the name, and an empty tag, as in `"x:"`, adds nothing. */
  lemma TaggedId(mainId: string, tag: string, ignored: string)
    requires ':' !in mainId && ':' !in tag
    requires ignored == [] || ignored[0] == ':'
    ensures PrettyModelName(mainId + ":" + tag + ignored)
            == if tag == "" then FormatName(NamePart(mainId))
               else FormatName(NamePart(mainId)) + " (" + Capitalize(tag) + ")"
  {
    var modelId := mainId + ":" + tag + ignored;
    assert modelId == mainId + [':'] + (tag + ignored);
    SplitAtFirstSeparator(mainId, ':', tag + ignored);
    FirstPiece(tag, ':', ignored);
  }

  /** The name part of `owner/name/...` is `name`; an id with no `/` is
      its own name part. */
  lemma NameAfterSlash(owner: string, name: string, ignored: string)
    requires '/' !in owner && '/' !in name
    requires ignored == [] || ignored[0] == '/'
    ensures NamePart(owner + "/" + name + ignored) == name
    ensures NamePart(owner) == owner
  {
    var mainId := owner + "/" + name + ignored;
    assert mainId == owner + ['/'] + (name + ignored);
    assert '/' in mainId by { assert mainId[|owner|] == '/'; }
    SplitAtFirstSeparator(owner, '/', name + ignored);
    FirstPiece(name, '/', ignored);
  }

  // ---------------------------------------------------------------------
  // Formatting the name

  lemma {:induction false} CapitalizeAllHasNoHyphen(words: seq<string>)
    requires forall i :: 0 <= i < |words| ==> '-' !in words[i]
    ensures forall i :: 0 <= i < |CapitalizeAll(words)| ==> '-' !in CapitalizeAll(words)[i]
  {
    forall i | 0 <= i < |words|
      ensures '-' !in Capitalize(words[i])
    {
      var w := words[i];
      if w != [] {
        assert w == [w[0]] + w[1..];
      }
    }
  }

  lemma {:induction false} NonEmptyKeepsHyphenFree(words: seq<string>)
    requires forall i :: 0 <= i < |words| ==> '-' !in words[i]
    ensures forall i :: 0 <= i < |NonEmpty(words)| ==> '-' !in NonEmpty(words)[i]
  {
    if words != [] {
      NonEmptyKeepsHyphenFree(words[1..]);
    }
  }

  /** Any name is its hyphen-free pieces joined by `-`; it comes out as
      the non-empty pieces capitalised and separated by single spaces, so
      leading, trailing and doubled hyphens leave nothing behind. */
  lemma FormatHyphenPieces(pieces: seq<string>)
    requires |pieces| >= 1
    requires forall i :: 0 <= i < |pieces| ==> '-' !in pieces[i]
    ensures FormatName(Join(pieces, '-')) == Join(CapitalizeAll(NonEmpty(pieces)), ' ')
  {
    SplitJoin(pieces, '-');
  }

  /** A name made of non-empty hyphen-free words separated by single `-`
      comes out as those words capitalised and separated by single spaces. */
  lemma {:induction false} FormatJoinedWords(words: seq<string>)
    requires |words| >= 1
    requires forall i :: 0 <= i < |words| ==> words[i] != "" && '-' !in words[i]
    ensures FormatName(Join(words, '-')) == Join(CapitalizeAll(words), ' ')
  {
    FormatHyphenPieces(words);
    NonEmptyOfNonEmpty(words);
  }

  /** An owner with nothing after its `/`, such as `openai/`, has the empty
      name part and reads as the empty string. */
  lemma OwnerWithoutName(owner: string)
    requires '/' !in owner && ':' !in owner
    ensures PrettyModelName(owner + "/") == ""
  {
    NameAfterSlash(owner, "", "");
    assert owner + "/" + "" + "" == owner + "/";
    assert ':' !in owner + "/";
    UntaggedId(owner + "/");
    assert Split("", '-') == [""];
  }

  lemma {:induction false} NonEmptyOfNonEmpty(words: seq<string>)
    requires forall i :: 0 <= i < |words| ==> words[i] != ""
    ensures NonEmpty(words) == words
  {
    if words != [] {
      NonEmptyOfNonEmpty(words[1..]);
    }
  }

  /** Empty words count for nothing: a `-` splits the words of what is
      before it from the words of what is after it, so leading, trailing
      and doubled hyphens leave no empty word behind. */
  lemma WordsAroundHyphen(before: string, after: string)
    requires '-' !in before
    ensures Words(before + "-" + after) == Words(before) + Words(after)
  {
    assert before + "-" + after == before + ['-'] + after;
    SplitAtFirstSeparator(before, '-', after);
    SplitWithoutSeparator(before, '-');
    assert NonEmpty([before]) == if before == "" then [] else [before];
    NonEmptyAppend([before], Split(after, '-'));
  }

  lemma {:induction false} NonEmptyAppend(a: seq<string>, b: seq<string>)
    ensures NonEmpty(a + b) == NonEmpty(a) + NonEmpty(b)
  {
    if a != [] {
      NonEmptyAppend(a[1..], b);
      assert (a + b)[1..] == a[1..] + b;
    } else {
      assert a + b == b;
    }
  }

  /** The usual shape of an id, `owner/word-word-...:tag`, reads as the
      capitalised words separated by spaces with the capitalised tag in
      parentheses; `anthropic/claude-3-opus:beta` is one instance. */
  lemma OwnerWordsAndTag(owner: string, words: seq<string>, tag: string)
    requires '/' !in owner && ':' !in owner
    requires |words| >= 1
    requires forall i :: 0 <= i < |words| ==> words[i] != "" && '-' !in words[i] && '/' !in words[i] && ':' !in words[i]
    requires tag != "" && ':' !in tag
    ensures PrettyModelName(owner + "/" + Join(words, '-') + ":" + tag)
            == Join(CapitalizeAll(words), ' ') + " (" + Capitalize(tag) + ")"
  {
    var name := Join(words, '-');
    var mainId := owner + "/" + name;
    NameOfOwnerAndWords(owner, words);
    TaggedId(mainId, tag, "");
    assert mainId + ":" + tag + "" == mainId + ":" + tag;
    FormatJoinedWords(words);
  }

  lemma NameOfOwnerAndWords(owner: string, words: seq<string>)
    requires '/' !in owner && ':' !in owner
    requires forall i :: 0 <= i < |words| ==> '/' !in words[i] && ':' !in words[i]
    ensures NamePart(owner + "/" + Join(words, '-')) == Join(words, '-')
    ensures ':' !in owner + "/" + Join(words, '-')
  {
    var name := Join(words, '-');
    JoinKeepsOut(words, '-', '/');
    JoinKeepsOut(words, '-', ':');
    NameAfterSlash(owner, name, "");
    assert owner + "/" + name + "" == owner + "/" + name;
  }
}
