/**
 * The command alphabet of the language, the character filter every draft
 * applies to its source file, and the bracket bookkeeping (nesting depth,
 * balance) shared by the validator, the optimizer and the code generator.
 */
module Commands {

  /** The C string terminator. */
  const NUL: char := '\0'

  /** The byte that reads back as EOF through a signed `char`. */
  const EOF_BYTE: char := '\U{FF}'

  /** The eight command characters: `+ - > < . , [ ]`. */
  const Alphabet: set<char> := {'+', '-', '>', '<', '.', ',', '[', ']'}

  /** The six commands recognised by the draft that has no loops. */
  const BasicAlphabet: set<char> := {'+', '-', '>', '<', '.', ','}

  const Brackets: set<char> := {'[', ']'}

  /** What a parse routine leaves behind: the filled buffer and its return value. */
  datatype Parsed = Parsed(input: seq<char>, length: nat)

  // ---------------------------------------------------------------------------
  // Filtering
  // ---------------------------------------------------------------------------

  /**
   * Reference filter: the characters of `s` that belong to `alphabet`, in
   * their original order.
   */
  function Keep(s: seq<char>, alphabet: set<char>): (r: seq<char>)
    ensures |r| <= |s|
    ensures forall i :: 0 <= i < |r| ==> r[i] in alphabet
    decreases |s|
  {
    if s == [] then []
    else if s[0] in alphabet then [s[0]] + Keep(s[1..], alphabet)
      else Keep(s[1..], alphabet)
  }

  /**
   * The `switch` loop of the parse routines: reads `file[i..n]` one
   * character at a time and appends each command character to `kept`.
   */
  function FilterLoop(file: seq<char>, alphabet: set<char>, i: nat, n: nat, kept: seq<char>): (r: seq<char>)
    requires i <= n <= |file|
    ensures r == kept + Keep(file[i..n], alphabet)
    decreases n - i
  {
    if i < n then
      assert file[i..n][1..] == file[i + 1..n];
      if file[i] in alphabet then FilterLoop(file, alphabet, i + 1, n, kept + [file[i]])
      else FilterLoop(file, alphabet, i + 1, n, kept)
    else kept
  }

  /** The filter keeps every occurrence of every alphabet character. */
  lemma {:induction false} KeepCounts(s: seq<char>, alphabet: set<char>)
    ensures forall c :: c in alphabet ==> multiset(Keep(s, alphabet))[c] == multiset(s)[c]
    decreases |s|
  {
    if s != [] {
      assert s == [s[0]] + s[1..];
      KeepCounts(s[1..], alphabet);
    }
  }

  /** `r` can be obtained from `s` by deleting characters. */
  predicate IsSubsequence(r: seq<char>, s: seq<char>)
    decreases |s|
  {
    if r == [] then true
    else if s == [] then false
    else (r[0] == s[0] && IsSubsequence(r[1..], s[1..])) || IsSubsequence(r, s[1..])
  }

  /** Filtering distributes over concatenation: it works character by character. */
  lemma {:induction false} KeepAppend(a: seq<char>, b: seq<char>, alphabet: set<char>)
    ensures Keep(a + b, alphabet) == Keep(a, alphabet) + Keep(b, alphabet)
    decreases |a|
  {
    if a == [] {
      assert a + b == b;
    } else {
      var ab := a + b;
      assert ab[0] == a[0];
      assert ab[1..] == a[1..] + b;
      KeepAppend(a[1..], b, alphabet);
      var head := if a[0] in alphabet then [a[0]] else [];
      assert Keep(ab, alphabet) == head + Keep(ab[1..], alphabet);
      assert Keep(a, alphabet) == head + Keep(a[1..], alphabet);
    }
  }

  /** The filter preserves order: its result is a subsequence of its input. */
  lemma {:induction false} KeepIsSubsequence(s: seq<char>, alphabet: set<char>)
    ensures IsSubsequence(Keep(s, alphabet), s)
    decreases |s|
  {
    if s != [] {
      KeepIsSubsequence(s[1..], alphabet);
      if s[0] !in alphabet {
        SubsequenceOfTail(Keep(s[1..], alphabet), s);
      }
    }
  }

  lemma SubsequenceOfTail(r: seq<char>, s: seq<char>)
    requires s != [] && IsSubsequence(r, s[1..])
    ensures IsSubsequence(r, s)
  {
  }

  /** A subsequence never holds more copies of a character than its source. */
  lemma {:induction false} SubsequenceCount(r: seq<char>, s: seq<char>, c: char)
    requires IsSubsequence(r, s)
    ensures multiset(r)[c] <= multiset(s)[c]
    decreases |s|
  {
    if r != [] {
      assert s == [s[0]] + s[1..];
      if r[0] == s[0] && IsSubsequence(r[1..], s[1..]) {
        assert r == [r[0]] + r[1..];
        SubsequenceCount(r[1..], s[1..], c);
      } else {
        SubsequenceCount(r, s[1..], c);
      }
    }
  }

  /**
   * The filter is the only order-preserving selection of alphabet
   * characters that drops none of them: keeping exactly the alphabet
   * characters, in order, determines the result.
   */
  lemma {:induction false} KeepUnique(r: seq<char>, s: seq<char>, alphabet: set<char>)
    requires IsSubsequence(r, s)
    requires forall i :: 0 <= i < |r| ==> r[i] in alphabet
    requires forall c :: c in alphabet ==> multiset(r)[c] == multiset(s)[c]
    ensures r == Keep(s, alphabet)
    decreases |s|
  {
    if s == [] {
      assert r == [];
    } else {
      var c, t := s[0], s[1..];
      assert s == [c] + t;
      if c !in alphabet {
        if r != [] {
          assert r[0] in alphabet;
        }
        assert IsSubsequence(r, t);
        KeepUnique(r, t, alphabet);
      } else {
        assert multiset(r)[c] == multiset(t)[c] + 1;
        if r != [] && r[0] == c && IsSubsequence(r[1..], t) {
          assert r == [c] + r[1..];
          forall x | x in alphabet
            ensures multiset(r[1..])[x] == multiset(t)[x]
          {
          }
          KeepUnique(r[1..], t, alphabet);
        } else {
          assert r != [];
          SubsequenceCount(r, t, c);
          assert false;
        }
      }
    }
  }

  /** A string already drawn from the alphabet is left unchanged, and only such a string. */
  lemma {:induction false} KeepIdentity(s: seq<char>, alphabet: set<char>)
    ensures Keep(s, alphabet) == s <==> forall i :: 0 <= i < |s| ==> s[i] in alphabet
    decreases |s|
  {
    if s != [] {
      KeepIdentity(s[1..], alphabet);
      if forall i :: 0 <= i < |s| ==> s[i] in alphabet {
        assert forall i :: 0 <= i < |s[1..]| ==> s[1..][i] in alphabet by {
          forall i | 0 <= i < |s[1..]| ensures s[1..][i] in alphabet {
            assert s[1..][i] == s[i + 1];
          }
        }
        assert s == [s[0]] + s[1..];
      }
    }
  }

  /** Filtering twice is filtering once by the common alphabet. */
  lemma {:induction false} KeepNested(s: seq<char>, a: set<char>, b: set<char>)
    ensures Keep(Keep(s, a), b) == Keep(s, a * b)
    decreases |s|
  {
    if s != [] {
      KeepNested(s[1..], a, b);
      if s[0] in a {
        KeepAppend([s[0]], Keep(s[1..], a), b);
      }
    }
  }

  // ---------------------------------------------------------------------------
  // Bracket depth
  // ---------------------------------------------------------------------------

  /** Net nesting depth after `s`: opening brackets minus closing brackets. */
  function Depth(s: seq<char>): int
  {
    (multiset(s)['['] as int) - (multiset(s)[']'] as int)
  }

  /** Starting at depth `base`, no prefix of `s` drives the depth below zero. */
  predicate NeverBelow(s: seq<char>, base: int)
  {
    forall k :: 0 <= k <= |s| ==> base + Depth(s[..k]) >= 0
  }

  /** Every `]` closes an earlier `[` and every `[` is closed. */
  predicate Balanced(s: seq<char>)
  {
    NeverBelow(s, 0) && Depth(s) == 0
  }

  lemma DepthAppend(a: seq<char>, b: seq<char>)
    ensures Depth(a + b) == Depth(a) + Depth(b)
  {
    assert multiset(a + b) == multiset(a) + multiset(b);
  }

  /** One character more of the running depth. */
  lemma DepthStep(line: seq<char>, index: nat)
    requires index < |line|
    ensures Depth(line[..index + 1]) == Depth(line[..index]) + (
      if line[index] == '[' then 1 else if line[index] == ']' then -1 else 0)
  {
    assert line[..index + 1] == line[..index] + [line[index]];
    DepthAppend(line[..index], [line[index]]);
  }

  /** Peeling the first character off a prefix-depth condition. */
  lemma NeverBelowCons(c: char, t: seq<char>, base: int)
    ensures NeverBelow([c] + t, base) <==> base >= 0 && NeverBelow(t, base + Depth([c]))
  {
    var s := [c] + t;
    assert s[..0] == [];
    if NeverBelow(s, base) {
      forall k | 0 <= k <= |t| ensures base + Depth([c]) + Depth(t[..k]) >= 0 {
        assert s[..k + 1] == [c] + t[..k];
        DepthAppend([c], t[..k]);
      }
    }
    if base >= 0 && NeverBelow(t, base + Depth([c])) {
      forall k | 0 <= k <= |s| ensures base + Depth(s[..k]) >= 0 {
        if k > 0 {
          assert s[..k] == [c] + t[..k - 1];
          DepthAppend([c], t[..k - 1]);
        }
      }
    }
  }

  /** Extending a checked prefix by one character. */
  lemma NeverBelowSnoc(s: seq<char>, i: nat, base: int)
    requires i < |s|
    ensures NeverBelow(s[..i + 1], base) <==> NeverBelow(s[..i], base) && base + Depth(s[..i + 1]) >= 0
  {
    var p, q := s[..i], s[..i + 1];
    forall k | 0 <= k <= i ensures q[..k] == p[..k] {
    }
    if NeverBelow(q, base) {
      assert q[..i + 1] == q;
      forall k | 0 <= k <= i ensures base + Depth(p[..k]) >= 0 {
        assert base + Depth(q[..k]) >= 0;
      }
    }
    if NeverBelow(p, base) && base + Depth(q) >= 0 {
      forall k | 0 <= k <= i + 1 ensures base + Depth(q[..k]) >= 0 {
        if k == i + 1 {
          assert q[..k] == q;
        } else {
          assert base + Depth(p[..k]) >= 0;
        }
      }
    }
  }

  /** A prefix-depth condition splits over concatenation. */
  lemma NeverBelowAppend(a: seq<char>, b: seq<char>, base: int)
    ensures NeverBelow(a + b, base) ==> NeverBelow(a, base) && NeverBelow(b, base + Depth(a))
  {
    if NeverBelow(a + b, base) {
      forall k | 0 <= k <= |a| ensures base + Depth(a[..k]) >= 0 {
        assert (a + b)[..k] == a[..k];
      }
      forall k | 0 <= k <= |b| ensures base + Depth(a) + Depth(b[..k]) >= 0 {
        assert (a + b)[..|a| + k] == a + b[..k];
        DepthAppend(a, b[..k]);
      }
    }
  }

  /**
   * Characters other than `[` and `]` play no part in the depth bookkeeping:
   * a string and its bracket skeleton agree on every prefix condition.
   */
  lemma {:induction false} NeverBelowBracketsOnly(s: seq<char>, base: int)
    ensures Depth(Keep(s, Brackets)) == Depth(s)
    ensures NeverBelow(s, base) <==> NeverBelow(Keep(s, Brackets), base)
    decreases |s|
  {
    var k := Keep(s, Brackets);
    assert '[' in Brackets && ']' in Brackets;
    KeepCounts(s, Brackets);
    if s == [] {
    } else {
      var c, t := s[0], s[1..];
      assert s == [c] + t;
      NeverBelowCons(c, t, base);
      if c in Brackets {
        assert k == [c] + Keep(t, Brackets);
        NeverBelowCons(c, Keep(t, Brackets), base);
        NeverBelowBracketsOnly(t, base + Depth([c]));
      } else {
        assert Depth([c]) == 0;
        NeverBelowBracketsOnly(t, base);
        assert s[..0] == [];
        assert NeverBelow(t, base) ==> base >= 0 by {
          if NeverBelow(t, base) { assert t[..0] == []; }
        }
      }
    }
  }

  /** Balance depends on the brackets alone. */
  lemma BalancedBracketsOnly(s: seq<char>)
    ensures Balanced(s) <==> Balanced(Keep(s, Brackets))
  {
    NeverBelowBracketsOnly(s, 0);
  }
}
