/**
 Case-blind comparison of addresses, as strings.EqualFold does it: rune by rune.
 */
module Folding {

  function AsciiLower(c: char): char {
    if 'A' <= c <= 'Z' then (c as int - 'A' as int + 'a' as int) as char else c
  }

  /**
   A folding sends every rune to the representative of its case class; '@' stands alone in its class, and the ASCII
   runes of one class are those that differ in case.
   */
  ghost predicate IsCaseFold(f: char -> char) {
    && (forall c :: f(c) == '@' <==> c == '@')
    && (forall c :: f(f(c)) == f(c))
    && (forall c, d | c < '\U{80}' && d < '\U{80}' :: f(c) == f(d) <==> AsciiLower(c) == AsciiLower(d))
  }

  type CaseFold = f: char -> char | IsCaseFold(f) witness AsciiLower

  // The folding in force. It is left open on purpose: everything below holds for every CaseFold,
  // Unicode's simple folding among them.
  const FOLD: CaseFold

  function Fold(s: string): (folded: string)
    ensures |folded| == |s|
  {
    if s == [] then [] else Fold(s[..|s| - 1]) + [FOLD(s[|s| - 1])]
  }

  predicate EqualFold(s: string, t: string) {
    Fold(s) == Fold(t)
  }

  predicate IsAscii(s: string) {
    forall c | c in s :: c < '\U{80}'
  }

  lemma {:induction false} FoldIsPointwise(s: string)
    ensures forall i | 0 <= i < |s| :: Fold(s)[i] == FOLD(s[i])
  {
    if s == [] {
    } else {
      FoldIsPointwise(s[..|s| - 1]);
    }
  }

  /** Two addresses in ASCII are the same exactly when they differ in the case of letters only. */
  lemma AsciiFoldExactly(s: string, t: string)
    requires IsAscii(s) && IsAscii(t)
    ensures EqualFold(s, t) <==>
            |s| == |t| && forall i | 0 <= i < |s| :: AsciiLower(s[i]) == AsciiLower(t[i])
  {
    hide Fold, AsciiLower;
    assert IsCaseFold(FOLD);
    FoldIsPointwise(s);
    FoldIsPointwise(t);
    if |s| == |t| {
      assert forall i | 0 <= i < |s| :: s[i] in s && t[i] in t;
      if Fold(s) == Fold(t) {
        assert forall i | 0 <= i < |s| :: FOLD(s[i]) == Fold(s)[i] && FOLD(t[i]) == Fold(t)[i];
      } else {
        assert exists i | 0 <= i < |s| :: Fold(s)[i] != Fold(t)[i];
      }
    }
  }

  lemma {:induction false} FoldIsIdempotent(s: string)
    ensures Fold(Fold(s)) == Fold(s)
  {
    if s == [] {
    } else {
      assert IsCaseFold(FOLD);
      FoldIsIdempotent(s[..|s| - 1]);
    }
  }

  lemma {:induction false} FoldOfSuffix(s: string, i: nat)
    requires i <= |s|
    ensures Fold(s[i..]) == Fold(s)[i..]
  {
    if i >= |s| {
    } else {
      FoldOfSuffix(s[..|s| - 1], i);
      assert s[i..][..|s| - 1 - i] == s[..|s| - 1][i..];
    }
  }

  lemma {:induction false} FoldKeepsAts(s: string)
    ensures '@' in Fold(s) <==> '@' in s
  {
    if s == [] {
    } else {
      assert IsCaseFold(FOLD);
      FoldKeepsAts(s[..|s| - 1]);
      assert s == s[..|s| - 1] + [s[|s| - 1]];
    }
  }

  /** Position of the last c in s, or -1. */
  function LastIndex(s: string, c: char): (i: int)
    ensures -1 <= i < |s|
  {
    if s == [] then -1
    else if s[|s| - 1] == c then |s| - 1
    else LastIndex(s[..|s| - 1], c)
  }

  lemma LastIndexIsLast(s: string, c: char)
    ensures LastIndex(s, c) >= 0 ==> s[LastIndex(s, c)] == c
    ensures forall k | LastIndex(s, c) < k < |s| :: s[k] != c
  {
  }

  lemma LastIndexIs(s: string, c: char, i: int)
    requires -1 <= i < |s| && (i >= 0 ==> s[i] == c)
    requires forall k | i < k < |s| :: s[k] != c
    ensures LastIndex(s, c) == i
  {
    LastIndexIsLast(s, c);
  }

  /** The text after the last '@', or "" when there is none. */
  function EmailDomain(email: string): string {
    var i := LastIndex(email, '@');
    if i < 0 then "" else email[i + 1..]
  }

  lemma {:induction false} LastIndexFolds(s: string)
    ensures LastIndex(Fold(s), '@') == LastIndex(s, '@')
  {
    if s == [] {
    } else {
      assert IsCaseFold(FOLD);
      assert Fold(s)[..|s| - 1] == Fold(s[..|s| - 1]);
      LastIndexFolds(s[..|s| - 1]);
    }
  }

  /** Taking the domain commutes with folding, because only '@' folds to '@'. */
  lemma EmailDomainFolds(email: string)
    ensures EmailDomain(Fold(email)) == Fold(EmailDomain(email))
  {
    LastIndexFolds(email);
    FoldOfSuffix(email, LastIndex(email, '@') + 1);
  }
}
