/** How the assembler cuts a line into words. */
module AsmText {

  /** `isblank`, which is `isspace` there. */
  predicate IsBlank(c: char) {
    9 <= c as int <= 13 || c == ' ' || c as int == 160
  }

  predicate Delimits(c: char) {
    IsBlank(c) || c == ','
  }

  /** No character ends a word. */
  predicate Solid(s: string) {
    forall i :: 0 <= i < |s| ==> !Delimits(s[i])
  }

  function SkipBlanks(s: string): (t: string)
    ensures |t| <= |s|
  {
    if s != "" && IsBlank(s[0]) then SkipBlanks(s[1..]) else s
  }

  function WordAt(s: string): string {
    if s == "" || Delimits(s[0]) then "" else [s[0]] + WordAt(s[1..])
  }

  /** What follows the word, less one comma. */
  function AfterWord(s: string): (t: string)
    ensures |t| <= |s|
    ensures s != "" && !Delimits(s[0]) ==> |t| < |s|
  {
    if s == "" then "" else if s[0] == ',' then s[1..] else if IsBlank(s[0]) then s else AfterWord(s[1..])
  }

  /** What successive calls of `get_word` deliver, up to the first empty word. */
  function Words(s: string): seq<string>
    decreases |s|
  {
    var t := SkipBlanks(s);
    if WordAt(t) == "" then [] else [WordAt(t)] + Words(AfterWord(t))
  }

  /** Eats blanks. */
  method EatBlanks(src: string, pos: nat) returns (p: nat)
    requires pos <= |src|
    ensures pos <= p <= |src| && src[p..] == SkipBlanks(src[pos..])
  {
    p := pos;
    while p < |src| && IsBlank(src[p])
      invariant pos <= p <= |src| && SkipBlanks(src[p..]) == SkipBlanks(src[pos..])
    {
      assert src[p..][1..] == src[p + 1..];
      p := p + 1;
    }
  }

  /** `get_word`: the word at `pos`, and the position to go on from. */
  method GetWord(src: string, pos: nat) returns (word: string, next: nat)
    requires pos <= |src|
    ensures pos <= next <= |src|
    ensures var t := SkipBlanks(src[pos..]); word == WordAt(t) && src[next..] == AfterWord(t)
  {
    var p := EatBlanks(src, pos);
    ghost var t := src[p..];
    if p == |src| { return "", p; }
    word := "";
    while p < |src| && !Delimits(src[p])
      invariant pos <= p <= |src|
      invariant WordAt(t) == word + WordAt(src[p..]) && AfterWord(t) == AfterWord(src[p..])
    {
      assert src[p..][1..] == src[p + 1..];
      word := word + [src[p]];
      p := p + 1;
    }
    next := if p < |src| && src[p] == ',' then p + 1 else p;
  }

  /** The same in terms of the words that are left. */
  method NextWord(src: string, pos: nat) returns (word: string, next: nat)
    requires pos <= |src|
    ensures next <= |src|
    ensures if word == "" then Words(src[pos..]) == [] else Words(src[pos..]) == [word] + Words(src[next..])
  {
    word, next := GetWord(src, pos);
  }

  // ----- words in a line

  /** A solid word up to a delimiter or the end. */
  lemma {:induction false} WordOfSolid(w: string, rest: string)
    requires Solid(w) && (rest != "" ==> Delimits(rest[0]))
    ensures WordAt(w + rest) == w && AfterWord(w + rest) == AfterWord(rest)
    decreases |w|
  {
    if w == "" {
      assert w + rest == rest;
    } else {
      assert (w + rest)[1..] == w[1..] + rest;
      WordOfSolid(w[1..], rest);
      assert [w[0]] + w[1..] == w;
    }
  }

  lemma WordsOfOne(w: string)
    requires Solid(w) && w != ""
    ensures Words(w) == [w]
  {
    WordOfSolid(w, "");
    assert w + "" == w;
    assert Words(AfterWord(w)) == [];
  }

  lemma WordsComma(w: string, rest: string)
    requires Solid(w) && w != ""
    ensures Words(w + ("," + rest)) == [w] + Words(rest)
  {
    WordOfSolid(w, "," + rest);
    assert ("," + rest)[1..] == rest;
    assert SkipBlanks(w + ("," + rest)) == w + ("," + rest);
  }

  lemma WordsBlank(w: string, rest: string)
    requires Solid(w) && w != "" && rest != "" && IsBlank(rest[0])
    ensures Words(w + rest) == [w] + Words(rest)
  {
    WordOfSolid(w, rest);
    assert SkipBlanks(w + rest) == w + rest;
  }

  lemma WordsSkip(rest: string)
    ensures Words(" " + rest) == Words(rest)
  {
    assert (" " + rest)[1..] == rest;
  }

  function Spaces(n: nat): string {
    if n == 0 then "" else " " + Spaces(n - 1)
  }

  /** A word, at least one blank, and more words. */
  lemma {:induction false} WordsSpaces(n: nat, rest: string)
    ensures Words(Spaces(n) + rest) == Words(rest)
    decreases n
  {
    if n == 0 {
      assert Spaces(0) + rest == rest;
    } else {
      WordsSpaces(n - 1, rest);
      WordsSkip(Spaces(n - 1) + rest);
      assert Spaces(n) + rest == " " + (Spaces(n - 1) + rest);
    }
  }
}
