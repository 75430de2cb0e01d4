/**
 * Translation of the file-name mask into a regular expression (the three
 * string statements in main): prepend "^", replace every '*' by ".*",
 * replace every '?' by ".", append "$". Nothing else is escaped, so a '.'
 * in the mask stays a regex wildcard.
 */
module Mask {

  /** std::regex_replace(s, std::regex("\\c"), rep) for a one-character literal pattern `c`:
      every occurrence of `c`, left to right, is replaced by `rep`. */
  function ReplaceAll(s: string, c: char, rep: string): string
    decreases |s|
  {
    if s == [] then []
    else (if s[0] == c then rep else [s[0]]) + ReplaceAll(s[1..], c, rep)
  }

  /** The mask string after the rewrite, in the order main performs it. */
  function MaskToRegex(mask: string): string
  {
    ReplaceAll("^" + ReplaceAll(mask, '*', ".*"), '?', ".") + "$"
  }

  /** Reference reading of the rewrite, one mask character at a time. */
  function Translate(c: char): string
  {
    if c == '*' then ".*" else if c == '?' then "." else [c]
  }

  function TranslateAll(mask: string): string
    decreases |mask|
  {
    if mask == [] then [] else Translate(mask[0]) + TranslateAll(mask[1..])
  }

  /** Number of occurrences of `c` in `s`. */
  function Count(s: string, c: char): nat
    decreases |s|
  {
    if s == [] then 0 else (if s[0] == c then 1 else 0) + Count(s[1..], c)
  }

  lemma {:induction false} ReplaceAllAppend(s: string, t: string, c: char, rep: string)
    ensures ReplaceAll(s + t, c, rep) == ReplaceAll(s, c, rep) + ReplaceAll(t, c, rep)
    decreases |s|
  {
    if s == [] {
      assert s + t == t;
    } else {
      assert (s + t)[0] == s[0];
      assert (s + t)[1..] == s[1..] + t;
      ReplaceAllAppend(s[1..], t, c, rep);
    }
  }

  /** The two replacement passes together are the one-pass translation. */
  lemma {:induction false} TwoPassesAreOnePass(mask: string)
    ensures ReplaceAll(ReplaceAll(mask, '*', ".*"), '?', ".") == TranslateAll(mask)
    decreases |mask|
  {
    if mask != [] {
      var head := if mask[0] == '*' then ".*" else [mask[0]];
      ReplaceAllAppend(head, ReplaceAll(mask[1..], '*', ".*"), '?', ".");
      if mask[0] == '*' {
        assert ReplaceAll(".*", '?', ".") == ".*" by {
          assert ".*"[1..] == "*";
          assert "*"[1..] == [];
        }
      } else {
        assert [mask[0]][1..] == [];
      }
      TwoPassesAreOnePass(mask[1..]);
    }
  }

  /** The rewritten mask is "^", the translation of each character in order, and "$". */
  lemma MaskTranslation(mask: string)
    ensures MaskToRegex(mask) == "^" + TranslateAll(mask) + "$"
  {
    var starred := ReplaceAll(mask, '*', ".*");
    ReplaceAllAppend("^", starred, '?', ".");
    assert ReplaceAll("^", '?', ".") == "^" by {
      assert "^"[1..] == [];
    }
    TwoPassesAreOnePass(mask);
  }

  lemma {:induction false} TranslateAllLength(mask: string)
    ensures |TranslateAll(mask)| == |mask| + Count(mask, '*')
    decreases |mask|
  {
    if mask != [] {
      TranslateAllLength(mask[1..]);
    }
  }

  /** Anchors and length: the result starts with '^', ends with '$' and is
      longer than the mask by the number of '*' plus two. */
  lemma MaskShape(mask: string)
    ensures var r := MaskToRegex(mask);
      |r| == |mask| + Count(mask, '*') + 2 && r[0] == '^' && r[|r| - 1] == '$'
  {
    MaskTranslation(mask);
    TranslateAllLength(mask);
  }

  /** A mask without wildcards is copied through unchanged, '.' included. */
  lemma {:induction false} PlainMaskCopied(mask: string)
    requires '*' !in mask && '?' !in mask
    ensures MaskToRegex(mask) == "^" + mask + "$"
  {
    MaskTranslation(mask);
    PlainTranslation(mask);
  }

  lemma {:induction false} PlainTranslation(mask: string)
    requires '*' !in mask && '?' !in mask
    ensures TranslateAll(mask) == mask
    decreases |mask|
  {
    if mask != [] {
      assert mask[0] in mask;
      assert forall c :: c in mask[1..] ==> c in mask;
      PlainTranslation(mask[1..]);
      assert mask == [mask[0]] + mask[1..];
    }
  }

  /** The '.' of "*.txt" is not escaped: the regex is "^.*.txt$". */
  lemma DotIsNotEscaped()
    ensures MaskToRegex("*.txt") == "^.*.txt$"
  {
    MaskTranslation("*.txt");
    assert TranslateAll("*.txt") == ".*.txt" by {
      PlainTranslation(".txt");
      assert "*.txt"[1..] == ".txt";
    }
  }
}
