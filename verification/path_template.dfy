/**
 * Date/time placeholders in stream filename templates (`$Y $M $D $S $h $m $s`)
 * and their rewriting into fixed-width digit classes of a glob pattern.
 *
 * The streams reader rewrites the placeholders with one `str.replace` per
 * placeholder, applied one after another (`ReplaceInOrder`). This module also
 * defines a single left-to-right pass (`Substitute`) and proves that the two
 * agree for every order of the seven replacements, so the result does not
 * depend on the iteration order of the replacement table.
 */
module PathTemplate {
  import Seqs

  /** The letters that, written after `$`, form one of the seven placeholders. */
  const Letters: set<char> := {'Y', 'M', 'D', 'S', 'h', 'm', 's'}

  /** The order in which the replacement table is written, and iterated. */
  const SourceOrder: seq<char> := ['Y', 'M', 'D', 'S', 'h', 'm', 's']

  /** The two characters of the placeholder for letter `c`. */
  function TokenText(c: char): string
  {
    ['$', c]
  }

  /** How many digits the placeholder for `c` stands for: four for the year,
      five for the seconds of the day, two for every other field. */
  function Width(c: char): nat
    requires c in Letters
  {
    if c == 'Y' then 4 else if c == 'S' then 5 else 2
  }

  /** A glob character class matching exactly one decimal digit. */
  const DigitClass: string := "[0-9]"

  /** `n` digit classes in a row. */
  function Classes(n: nat): string
  {
    if n == 0 then [] else DigitClass + Classes(n - 1)
  }

  /** The text that replaces the placeholder for `c`. */
  function Replacement(c: char): string
    requires c in Letters
  {
    Classes(Width(c))
  }

  /** The replacement table, entry by entry, as the streams reader writes it. */
  lemma ReplacementTable()
    ensures Replacement('Y') == "[0-9][0-9][0-9][0-9]"
    ensures Replacement('M') == "[0-9][0-9]"
    ensures Replacement('D') == "[0-9][0-9]"
    ensures Replacement('S') == "[0-9][0-9][0-9][0-9][0-9]"
    ensures Replacement('h') == "[0-9][0-9]"
    ensures Replacement('m') == "[0-9][0-9]"
    ensures Replacement('s') == "[0-9][0-9]"
  {
    assert Classes(2) == "[0-9][0-9]";
    assert Classes(4) == "[0-9][0-9][0-9][0-9]";
    assert Classes(5) == "[0-9][0-9][0-9][0-9][0-9]";
  }

  /** A run of digit classes has no `$`, and a non-empty one starts with `[`
      and ends with `]`: it can neither contain a placeholder nor complete one
      with its neighbours. */
  lemma {:induction false} ClassesShape(n: nat)
    ensures |Classes(n)| == 5 * n
    ensures forall i :: 0 <= i < |Classes(n)| ==> Classes(n)[i] != '$'
    ensures n > 0 ==> Classes(n)[0] == '[' && Classes(n)[|Classes(n)| - 1] == ']'
  {
    if n > 0 {
      ClassesShape(n - 1);
      assert Classes(n) == DigitClass + Classes(n - 1);
    }
  }

  // ---------------------------------------------------------------------
  // Python's str.replace, and the sequence of replacements the reader makes
  // ---------------------------------------------------------------------

  /** `s.replace(pat, rep)`: scan left to right, replacing each occurrence of
      `pat` that does not overlap an earlier replaced one. A string shorter
      than the pattern is returned unchanged, and an occurrence at the start
      is replaced. */
  function ReplaceAll(s: string, pat: string, rep: string): (r: string)
    requires |pat| > 0
    ensures |s| < |pat| ==> r == s
    ensures pat <= s ==> rep <= r
    decreases |s|
  {
    if |s| == 0 then []
    else if pat <= s then rep + ReplaceAll(s[|pat|..], pat, rep)
    else [s[0]] + ReplaceAll(s[1..], pat, rep)
  }

  /** The reader's loop: one `replace` per placeholder, in the order given.
      A template without `$` comes through unchanged. */
  function ReplaceInOrder(s: string, order: seq<char>): (r: string)
    requires forall i :: 0 <= i < |order| ==> order[i] in Letters
    ensures (forall i :: 0 <= i < |s| ==> s[i] != '$') ==> r == s
    decreases |order|
  {
    if |order| == 0 then s
    else
      ReplaceAllDollarFree(s, order[0], Replacement(order[0]));
      ReplaceInOrder(ReplaceAll(s, TokenText(order[0]), Replacement(order[0])), order[1..])
  }

  // ---------------------------------------------------------------------
  // The single-pass substitution
  // ---------------------------------------------------------------------

  /** One left-to-right pass that rewrites the placeholders whose letter is
      in `ls` and copies every other character. */
  function SubstituteOnly(s: string, ls: set<char>): string
    requires ls <= Letters
    decreases |s|
  {
    if |s| == 0 then []
    else if |s| >= 2 && s[0] == '$' && s[1] in ls then Replacement(s[1]) + SubstituteOnly(s[2..], ls)
    else [s[0]] + SubstituteOnly(s[1..], ls)
  }

  /** One left-to-right pass rewriting all seven placeholders. */
  function Substitute(s: string): string
  {
    SubstituteOnly(s, Letters)
  }

  /** A pass that rewrites nothing is the identity. */
  lemma {:induction false} SubstituteNothing(s: string)
    ensures SubstituteOnly(s, {}) == s
    decreases |s|
  {
    if |s| > 0 {
      SubstituteNothing(s[1..]);
      assert s == [s[0]] + s[1..];
    }
  }

  /** The first character of a pass's output is the first input character,
      or the `[` that opens a replacement. */
  lemma SubstituteOnlyStart(s: string, ls: set<char>)
    requires ls <= Letters
    requires |s| > 0
    ensures |SubstituteOnly(s, ls)| > 0
    ensures SubstituteOnly(s, ls)[0] == s[0] || SubstituteOnly(s, ls)[0] == '['
  {
    if |s| >= 2 && s[0] == '$' && s[1] in ls {
      ClassesShape(Width(s[1]));
    }
  }

  /** `replace` passes over a prefix that holds no `$` unchanged. */
  lemma {:induction false} ReplaceAllSkipsDollarFree(x: string, y: string, c: char, rep: string)
    requires forall i :: 0 <= i < |x| ==> x[i] != '$'
    ensures ReplaceAll(x + y, TokenText(c), rep) == x + ReplaceAll(y, TokenText(c), rep)
    decreases |x|
  {
    if |x| == 0 {
      assert x + y == y;
    } else {
      assert (x + y)[0] == x[0];
      assert !(TokenText(c) <= x + y);
      assert (x + y)[1..] == x[1..] + y;
      ReplaceAllSkipsDollarFree(x[1..], y, c, rep);
      assert x == [x[0]] + x[1..];
    }
  }

  /** `replace` of a placeholder leaves a string without `$` unchanged. */
  lemma {:induction false} ReplaceAllDollarFree(s: string, c: char, rep: string)
    ensures (forall i :: 0 <= i < |s| ==> s[i] != '$') ==> ReplaceAll(s, TokenText(c), rep) == s
  {
    if forall i :: 0 <= i < |s| ==> s[i] != '$' {
      ReplaceAllSkipsDollarFree(s, [], c, rep);
      assert s + [] == s;
    }
  }

  /** Step of `ReplaceOneMore` at a placeholder the pass already rewrote:
      its replacement holds no `$`, so `replace` passes over it. */
  lemma StepAtRewritten(s: string, ls: set<char>, c: char)
    requires ls <= Letters && c in Letters
    requires |s| >= 2 && s[0] == '$' && s[1] in ls
    ensures ReplaceAll(SubstituteOnly(s, ls), TokenText(c), Replacement(c))
         == Replacement(s[1]) + ReplaceAll(SubstituteOnly(s[2..], ls), TokenText(c), Replacement(c))
    ensures SubstituteOnly(s, ls + {c}) == Replacement(s[1]) + SubstituteOnly(s[2..], ls + {c})
  {
    ClassesShape(Width(s[1]));
    ReplaceAllSkipsDollarFree(Replacement(s[1]), SubstituteOnly(s[2..], ls), c, Replacement(c));
  }

  /** Step of `ReplaceOneMore` at an occurrence of the placeholder being
      replaced: the pass copied both of its characters. */
  lemma StepAtReplaced(s: string, ls: set<char>, c: char)
    requires ls <= Letters && c in Letters && c !in ls
    requires |s| >= 2 && s[0] == '$' && s[1] == c
    ensures ReplaceAll(SubstituteOnly(s, ls), TokenText(c), Replacement(c))
         == Replacement(c) + ReplaceAll(SubstituteOnly(s[2..], ls), TokenText(c), Replacement(c))
    ensures SubstituteOnly(s, ls + {c}) == Replacement(c) + SubstituteOnly(s[2..], ls + {c})
  {
    var rest := SubstituteOnly(s[2..], ls);
    assert s[1..][0] == c && s[1..][1..] == s[2..];
    assert SubstituteOnly(s[1..], ls) == [c] + rest;
    assert SubstituteOnly(s, ls) == TokenText(c) + rest;
    assert (TokenText(c) + rest)[2..] == rest;
  }

  /** Step of `ReplaceOneMore` at a character the pass copies: the copy does
      not start an occurrence of the placeholder being replaced. */
  lemma StepAtCopied(s: string, ls: set<char>, c: char)
    requires ls <= Letters && c in Letters
    requires |s| > 0
    requires !(|s| >= 2 && s[0] == '$' && (s[1] in ls || s[1] == c))
    ensures ReplaceAll(SubstituteOnly(s, ls), TokenText(c), Replacement(c))
         == [s[0]] + ReplaceAll(SubstituteOnly(s[1..], ls), TokenText(c), Replacement(c))
    ensures SubstituteOnly(s, ls + {c}) == [s[0]] + SubstituteOnly(s[1..], ls + {c})
  {
    var rest := SubstituteOnly(s[1..], ls);
    assert SubstituteOnly(s, ls) == [s[0]] + rest;
    if |s| >= 2 {
      SubstituteOnlyStart(s[1..], ls);
    }
    ReplaceAllCopies(s[0], rest, c, Replacement(c));
  }

  /** `replace` copies a first character that does not start the
      placeholder; `rep` stands for the placeholder's replacement. */
  lemma ReplaceAllCopies(x: char, rest: string, c: char, rep: string)
    requires x != '$' || |rest| == 0 || rest[0] != c
    ensures ReplaceAll([x] + rest, TokenText(c), rep) == [x] + ReplaceAll(rest, TokenText(c), rep)
  {
    var out := [x] + rest;
    if |out| >= 2 {
      assert out[0] != '$' || out[1] != c;
    }
    assert !(TokenText(c) <= out);
    assert out[1..] == rest;
  }

  /** Replacing placeholder `c` after a pass over `ls` is the same as one pass
      over `ls + {c}`: no replacement text creates, hides or splits a
      placeholder. */
  lemma {:induction false} ReplaceOneMore(s: string, ls: set<char>, c: char)
    requires ls <= Letters && c in Letters
    ensures ReplaceAll(SubstituteOnly(s, ls), TokenText(c), Replacement(c)) == SubstituteOnly(s, ls + {c})
    decreases |s|
  {
    if |s| == 0 {
    } else if |s| >= 2 && s[0] == '$' && s[1] in ls {
      ReplaceOneMore(s[2..], ls, c);
      StepAtRewritten(s, ls, c);
    } else if |s| >= 2 && s[0] == '$' && s[1] == c {
      ReplaceOneMore(s[2..], ls, c);
      StepAtReplaced(s, ls, c);
    } else {
      ReplaceOneMore(s[1..], ls, c);
      StepAtCopied(s, ls, c);
    }
  }

  /** Applying the replacements of `order` after a pass over `ls` is one pass
      over `ls` and every letter of `order`. */
  lemma {:induction false} ReplaceInOrderAfter(s: string, ls: set<char>, order: seq<char>)
    requires ls <= Letters
    requires forall i :: 0 <= i < |order| ==> order[i] in Letters
    ensures ReplaceInOrder(SubstituteOnly(s, ls), order) == SubstituteOnly(s, ls + (set c | c in order))
    decreases |order|
  {
    if |order| == 0 {
      assert (set c | c in order) == {};
      assert ls + {} == ls;
    } else {
      var c := order[0];
      ReplaceOneMore(s, ls, c);
      ReplaceInOrderAfter(s, ls + {c}, order[1..]);
      assert order == [c] + order[1..];
      assert (set x | x in order) == {c} + (set x | x in order[1..]);
      assert ls + {c} + (set x | x in order[1..]) == ls + (set x | x in order);
    }
  }

  /** The reader's sequence of `replace` calls equals the single pass, for
      every order that names each of the seven placeholders (repetitions
      allowed). */
  lemma SequentialIsSinglePass(s: string, order: seq<char>)
    requires forall i :: 0 <= i < |order| ==> order[i] in Letters
    requires forall c :: c in Letters ==> c in order
    ensures ReplaceInOrder(s, order) == Substitute(s)
  {
    SubstituteNothing(s);
    ReplaceInOrderAfter(s, {}, order);
    assert {} + (set c | c in order) == Letters;
  }

  /** The order in which the replacement table is iterated does not matter. */
  lemma ReplaceOrderIrrelevant(s: string, order1: seq<char>, order2: seq<char>)
    requires forall i :: 0 <= i < |order1| ==> order1[i] in Letters
    requires forall i :: 0 <= i < |order2| ==> order2[i] in Letters
    requires forall c :: c in Letters ==> c in order1 && c in order2
    ensures ReplaceInOrder(s, order1) == ReplaceInOrder(s, order2)
  {
    SequentialIsSinglePass(s, order1);
    SequentialIsSinglePass(s, order2);
  }

  /** The order the reader uses is one of them. */
  lemma SourceOrderIsSinglePass(s: string)
    ensures ReplaceInOrder(s, SourceOrder) == Substitute(s)
  {
    assert forall c :: c in Letters ==> c in SourceOrder by {
      assert SourceOrder[0] == 'Y' && SourceOrder[1] == 'M' && SourceOrder[2] == 'D';
      assert SourceOrder[3] == 'S' && SourceOrder[4] == 'h' && SourceOrder[5] == 'm' && SourceOrder[6] == 's';
    }
    SequentialIsSinglePass(s, SourceOrder);
  }

  /** A template without `$` is left as it is. */
  lemma {:induction false} SubstituteDollarFree(s: string)
    requires forall i :: 0 <= i < |s| ==> s[i] != '$'
    ensures Substitute(s) == s
    decreases |s|
  {
    if |s| > 0 {
      SubstituteDollarFree(s[1..]);
      assert s == [s[0]] + s[1..];
    }
  }

  /** The pass works piece by piece: a template may be cut anywhere except
      between the `$` and the letter of a placeholder. */
  lemma {:induction false} SubstituteConcat(a: string, b: string)
    requires |a| == 0 || |b| == 0 || a[|a| - 1] != '$' || b[0] !in Letters
    ensures Substitute(a + b) == Substitute(a) + Substitute(b)
    decreases |a|
  {
    if |a| == 0 {
      assert a + b == b;
    } else {
      var k := if |a| >= 2 && a[0] == '$' && a[1] in Letters then 2 else 1;
      var head := ConcatHead(a, b);
      SubstituteConcat(a[k..], b);
      Seqs.SeqAssoc(head, Substitute(a[k..]), Substitute(b));
    }
  }

  /** The first piece of `a + b`, when `a` is not empty, is the first piece
      of `a`: a placeholder of `a`, or its first character. */
  lemma ConcatHead(a: string, b: string) returns (head: string)
    requires |a| > 0
    requires |b| == 0 || a[|a| - 1] != '$' || b[0] !in Letters
    ensures var k := if |a| >= 2 && a[0] == '$' && a[1] in Letters then 2 else 1;
            && Substitute(a) == head + Substitute(a[k..])
            && Substitute(a + b) == head + Substitute(a[k..] + b)
  {
    if |a| >= 2 && a[0] == '$' && a[1] in Letters {
      assert (a + b)[..2] == a[..2] && (a + b)[2..] == a[2..] + b;
      head := Replacement(a[1]);
    } else {
      assert (a + b)[0] == a[0] && (a + b)[1..] == a[1..] + b;
      if |a| == 1 && |b| > 0 {
        assert (a + b)[1] == b[0];
      } else if |a| >= 2 {
        assert (a + b)[1] == a[1];
      }
      head := [a[0]];
    }
  }

  // ---------------------------------------------------------------------
  // No placeholder survives
  // ---------------------------------------------------------------------

  /** `s` contains one of the seven placeholders. */
  ghost predicate HasToken(s: string)
  {
    exists i :: 0 <= i < |s| - 1 && s[i] == '$' && s[i + 1] in Letters
  }

  /** A placeholder in `a + b` lies in `a`, in `b`, or across the seam. */
  lemma NoTokenAcross(a: string, b: string)
    requires !HasToken(a) && !HasToken(b)
    requires |a| == 0 || |b| == 0 || a[|a| - 1] != '$' || b[0] !in Letters
    ensures !HasToken(a + b)
  {
  }

  /** After the pass no placeholder is left, not even one formed by a `$`
      of the input and a letter that follows a replacement. */
  lemma {:induction false} SubstituteRemovesTokens(s: string)
    ensures !HasToken(Substitute(s))
    decreases |s|
  {
    if |s| == 0 {
    } else if |s| >= 2 && s[0] == '$' && s[1] in Letters {
      var rep := Replacement(s[1]);
      ClassesShape(Width(s[1]));
      SubstituteRemovesTokens(s[2..]);
      assert !HasToken(rep);
      NoTokenAcross(rep, Substitute(s[2..]));
    } else {
      SubstituteRemovesTokens(s[1..]);
      if |s| >= 2 {
        SubstituteOnlyStart(s[1..], Letters);
      }
      NoTokenAcross([s[0]], Substitute(s[1..]));
    }
  }

  /** The pass keeps the first character `/`, and never creates one. */
  lemma SubstituteKeepsRoot(s: string)
    ensures (|Substitute(s)| > 0 && Substitute(s)[0] == '/') <==> (|s| > 0 && s[0] == '/')
  {
    if |s| > 0 {
      SubstituteOnlyStart(s, Letters);
    }
  }

  // ---------------------------------------------------------------------
  // The template as a sequence of pieces
  // ---------------------------------------------------------------------

  /** A template read as placeholders and literal characters. */
  datatype Piece = Placeholder(letter: char) | Literal(ch: char)

  /** Reads a template left to right: a `$` followed by one of the seven
      letters is a placeholder, every other character is literal. */
  function Tokenize(s: string): seq<Piece>
    decreases |s|
  {
    if |s| == 0 then []
    else if |s| >= 2 && s[0] == '$' && s[1] in Letters then [Placeholder(s[1])] + Tokenize(s[2..])
    else [Literal(s[0])] + Tokenize(s[1..])
  }

  /** The text of one piece. */
  function PieceText(p: Piece): string
  {
    match p
    case Placeholder(c) => TokenText(c)
    case Literal(x) => [x]
  }

  /** The text a sequence of pieces was read from. */
  function Spell(ps: seq<Piece>): string
    decreases |ps|
  {
    if |ps| == 0 then [] else PieceText(ps[0]) + Spell(ps[1..])
  }

  /** Spelling a piece in front of others. */
  lemma SpellCons(p: Piece, ps: seq<Piece>)
    ensures Spell([p] + ps) == PieceText(p) + Spell(ps)
  {
  }

  /** Every placeholder piece names one of the seven letters. */
  ghost predicate KnownLetters(ps: seq<Piece>)
  {
    forall i :: 0 <= i < |ps| ==> ps[i].Placeholder? ==> ps[i].letter in Letters
  }

  /** Pieces that `Tokenize` can produce: known letters, and no literal `$`
      directly before a literal placeholder letter. */
  ghost predicate Canonical(ps: seq<Piece>)
  {
    && KnownLetters(ps)
    && forall i :: 0 <= i < |ps| - 1 ==> ps[i] == Literal('$') && ps[i + 1].Literal? ==> ps[i + 1].ch !in Letters
  }

  /** The glob pattern for a sequence of pieces: each placeholder becomes its
      digit classes, each literal character is copied. */
  function Render(ps: seq<Piece>): string
    requires KnownLetters(ps)
    decreases |ps|
  {
    if |ps| == 0 then []
    else
      (match ps[0]
       case Placeholder(c) => Replacement(c)
       case Literal(x) => [x]) + Render(ps[1..])
  }

  /** Reading a template into pieces loses nothing. */
  lemma {:induction false} SpellTokenize(s: string)
    ensures Spell(Tokenize(s)) == s
    decreases |s|
  {
    if |s| > 0 {
      var k := if |s| >= 2 && s[0] == '$' && s[1] in Letters then 2 else 1;
      var p := if k == 2 then Placeholder(s[1]) else Literal(s[0]);
      assert Tokenize(s) == [p] + Tokenize(s[k..]);
      SpellCons(p, Tokenize(s[k..]));
      SpellTokenize(s[k..]);
      assert s == PieceText(p) + s[k..];
    }
  }

  /** The pieces `Tokenize` produces are canonical. */
  lemma {:induction false} TokenizeCanonical(s: string)
    ensures Canonical(Tokenize(s))
    decreases |s|
  {
    if |s| == 0 {
    } else if |s| >= 2 && s[0] == '$' && s[1] in Letters {
      TokenizeCanonical(s[2..]);
    } else {
      TokenizeCanonical(s[1..]);
      var ps := Tokenize(s);
      if |s| >= 2 && s[0] == '$' {
        assert s[1] !in Letters;
        if s[1..][0] == '$' && |s[1..]| >= 2 && s[1..][1] in Letters {
          assert ps[1].Placeholder?;
        } else {
          assert ps[1] == Literal(s[1]);
        }
      }
    }
  }

  /** A canonical sequence of pieces is read back from its own text. */
  lemma {:induction false} TokenizeSpell(ps: seq<Piece>)
    requires Canonical(ps)
    ensures Tokenize(Spell(ps)) == ps
    decreases |ps|
  {
    if |ps| > 0 {
      var rest := Spell(ps[1..]);
      assert Canonical(ps[1..]);
      TokenizeSpell(ps[1..]);
      match ps[0]
      case Placeholder(c) =>
        assert Spell(ps) == TokenText(c) + rest;
        assert (TokenText(c) + rest)[2..] == rest;
      case Literal(x) =>
        assert Spell(ps) == [x] + rest;
        assert ([x] + rest)[1..] == rest;
        if x == '$' && |rest| > 0 {
          match ps[1]
          case Placeholder(d) =>
            assert rest[0] == '$';
          case Literal(y) =>
            assert rest[0] == y && y !in Letters;
        }
    }
  }

  /** The pass is the rendering of the pieces: each placeholder becomes its
      digit classes and every other character is kept, unchanged and in
      order. */
  lemma {:induction false} SubstituteRendersPieces(s: string)
    ensures KnownLetters(Tokenize(s))
    ensures Substitute(s) == Render(Tokenize(s))
    decreases |s|
  {
    TokenizeCanonical(s);
    if |s| == 0 {
    } else if |s| >= 2 && s[0] == '$' && s[1] in Letters {
      SubstituteRendersPieces(s[2..]);
      assert Tokenize(s)[1..] == Tokenize(s[2..]);
    } else {
      SubstituteRendersPieces(s[1..]);
      assert Tokenize(s)[1..] == Tokenize(s[1..]);
    }
  }

  // ---------------------------------------------------------------------
  // What the pattern matches
  // ---------------------------------------------------------------------

  predicate IsDigit(c: char)
  {
    '0' <= c <= '9'
  }

  ghost predicate AllDigits(t: string)
  {
    forall i :: 0 <= i < |t| ==> IsDigit(t[i])
  }

  /** No glob metacharacter: the fragment of glob patterns in which every
      character other than a `[0-9]` class matches only itself. */
  ghost predicate GlobFree(s: string)
  {
    forall i :: 0 <= i < |s| ==> s[i] != '[' && s[i] != '*' && s[i] != '?'
  }

  /** Glob matching of `t` against `p`, for patterns whose only metacharacters
      are the `[0-9]` classes of the replacements. */
  ghost predicate DigitGlobMatches(p: string, t: string)
    decreases |p|
  {
    if |p| == 0 then |t| == 0
    else if DigitClass <= p then |t| > 0 && IsDigit(t[0]) && DigitGlobMatches(p[5..], t[1..])
    else |t| > 0 && t[0] == p[0] && DigitGlobMatches(p[1..], t[1..])
  }

  /** `t` is the template `raw` with every placeholder filled with exactly as
      many decimal digits as its field has, and every other character kept. */
  ghost predicate Fills(raw: string, t: string)
    decreases |raw|
  {
    if |raw| == 0 then |t| == 0
    else if |raw| >= 2 && raw[0] == '$' && raw[1] in Letters then
      var w := Width(raw[1]);
      |t| >= w && AllDigits(t[..w]) && Fills(raw[2..], t[w..])
    else |t| > 0 && t[0] == raw[0] && Fills(raw[1..], t[1..])
  }

  /** `n` digit classes followed by `rest` match exactly `n` digits followed
      by a match of `rest`. */
  lemma {:induction false} ClassesMatch(n: nat, rest: string, t: string)
    ensures DigitGlobMatches(Classes(n) + rest, t) <==>
            |t| >= n && AllDigits(t[..n]) && DigitGlobMatches(rest, t[n..])
    decreases n
  {
    if n == 0 {
      assert Classes(0) + rest == rest;
      assert t[..0] == [] && t[0..] == t;
    } else {
      var p := Classes(n) + rest;
      assert p == DigitClass + (Classes(n - 1) + rest);
      assert DigitClass <= p;
      assert p[5..] == Classes(n - 1) + rest;
      if |t| > 0 {
        ClassesMatch(n - 1, rest, t[1..]);
        if |t| >= n {
          assert t[1..][n - 1..] == t[n..];
          var u, v := t[..n], t[1..][..n - 1];
          assert forall i :: 0 <= i < n - 1 ==> v[i] == u[i + 1];
          if IsDigit(t[0]) && AllDigits(v) {
            forall i | 0 <= i < n
              ensures IsDigit(u[i])
            {
              if i > 0 {
                assert u[i] == v[i - 1];
              }
            }
          }
        }
      }
    }
  }

  /** Each replacement matches exactly the names whose field has that
      placeholder's width in decimal digits: four for `$Y`, five for `$S`,
      two for the others. */
  lemma ReplacementMatchesWidth(c: char, t: string)
    requires c in Letters
    ensures DigitGlobMatches(Replacement(c), t) <==> |t| == Width(c) && AllDigits(t)
  {
    ClassesMatch(Width(c), [], t);
    assert Replacement(c) + [] == Replacement(c);
    if |t| >= Width(c) {
      assert DigitGlobMatches([], t[Width(c)..]) <==> |t| == Width(c);
      if |t| == Width(c) {
        assert t[..Width(c)] == t;
      }
    }
  }

  /** The pattern made from a template without glob metacharacters matches
      exactly the names that fill the template's placeholders with digits. */
  lemma {:induction false} SubstituteMeaning(raw: string, t: string)
    requires GlobFree(raw)
    ensures DigitGlobMatches(Substitute(raw), t) <==> Fills(raw, t)
    decreases |raw|
  {
    if |raw| == 0 {
    } else if |raw| >= 2 && raw[0] == '$' && raw[1] in Letters {
      var w := Width(raw[1]);
      assert GlobFree(raw[2..]);
      ClassesMatch(w, Substitute(raw[2..]), t);
      if |t| >= w {
        SubstituteMeaning(raw[2..], t[w..]);
      }
    } else {
      var p := Substitute(raw);
      assert p == [raw[0]] + Substitute(raw[1..]);
      assert p[0] == raw[0] && raw[0] != '[';
      assert !(DigitClass <= p);
      assert p[1..] == Substitute(raw[1..]);
      assert GlobFree(raw[1..]);
      if |t| > 0 {
        SubstituteMeaning(raw[1..], t[1..]);
      }
    }
  }

  /** A literal prefix without `[` matches only itself. */
  lemma {:induction false} LiteralPrefixMatch(lit: string, p: string, t: string)
    requires forall i :: 0 <= i < |lit| ==> lit[i] != '['
    ensures DigitGlobMatches(lit + p, t) <==>
            |t| >= |lit| && t[..|lit|] == lit && DigitGlobMatches(p, t[|lit|..])
    decreases |lit|
  {
    if |lit| == 0 {
      assert lit + p == p;
      assert t[..0] == lit && t[0..] == t;
    } else {
      var q := lit + p;
      assert q[0] == lit[0] && q[0] != '[';
      assert !(DigitClass <= q);
      assert q[1..] == lit[1..] + p;
      if |t| > 0 {
        LiteralPrefixMatch(lit[1..], p, t[1..]);
        if |t| >= |lit| {
          assert t[1..][|lit| - 1..] == t[|lit|..];
          assert t[..|lit|] == [t[0]] + t[1..][..|lit| - 1];
          assert lit == [lit[0]] + lit[1..];
        }
      }
    }
  }
}
