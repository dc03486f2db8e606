/**
 * ASCII case conversion and the UPPER_UNDERSCORE -> lowerCamel naming rule used to derive
 * option keys from enum constant names (the parts of Guava's Ascii and CaseFormat that the
 * option resolver relies on, restricted to ASCII identifiers).
 */
module CaseFormat {

  predicate IsUpper(c: char) { 'A' <= c <= 'Z' }

  predicate IsLower(c: char) { 'a' <= c <= 'z' }

  predicate IsLetter(c: char) { IsUpper(c) || IsLower(c) }

  function ToUpper(c: char): char
  {
    if IsLower(c) then (c as int - 32) as char else c
  }

  function ToLower(c: char): char
  {
    if IsUpper(c) then (c as int + 32) as char else c
  }

  /** Ascii.toUpperCase: a-z become A-Z, every other character is left as it is. */
  function AsciiToUpperCase(s: string): (r: string)
    ensures |r| == |s|
    ensures forall i :: 0 <= i < |s| ==> r[i] == ToUpper(s[i])
    ensures forall i :: 0 <= i < |r| ==> !IsLower(r[i])
  {
    if s == [] then [] else [ToUpper(s[0])] + AsciiToUpperCase(s[1..])
  }

  /** A word of an UPPER_UNDERSCORE name: one or more upper-case ASCII letters. */
  predicate IsUpperWord(w: string)
  {
    w != [] && forall i :: 0 <= i < |w| ==> IsUpper(w[i])
  }

  type Word = w: string | IsUpperWord(w) witness "A"

  /**
   * An UPPER_UNDERSCORE identifier: upper-case ASCII letters and underscores, neither starting
   * nor ending with an underscore, and never two underscores in a row.
   */
  predicate IsUpperUnderscore(s: string)
  {
    s != [] && s[0] != '_' && s[|s| - 1] != '_' &&
    (forall i :: 0 <= i < |s| ==> IsUpper(s[i]) || s[i] == '_') &&
    (forall i :: 0 <= i < |s| - 1 && s[i] == '_' ==> s[i + 1] != '_')
  }

  /** The words joined by underscores, as an enum constant's name() spells them. */
  function JoinWords(words: seq<Word>): string
  {
    if |words| == 0 then ""
    else if |words| == 1 then words[0]
    else words[0] + "_" + JoinWords(words[1..])
  }

  /**
   * lowerCamel conversion of the rest of an identifier. An underscore starts a new word, whose
   * first letter is upper-cased; every other letter is lower-cased.
   */
  function CamelFrom(s: string, capitalize: bool): (r: string)
    ensures (forall i :: 0 <= i < |s| ==> IsUpper(s[i]) || s[i] == '_') ==>
              forall i :: 0 <= i < |r| ==> IsLetter(r[i])
  {
    if s == [] then []
    else if s[0] == '_' then CamelFrom(s[1..], true)
    else [if capitalize then ToUpper(s[0]) else ToLower(s[0])] + CamelFrom(s[1..], false)
  }

  /** UPPER_UNDERSCORE.to(LOWER_CAMEL, s): the first word all lower case, later words capitalised. */
  function LowerCamel(s: string): string
  {
    CamelFrom(s, false)
  }

  /**
   * The inverse of CamelFrom used in the round-trip proofs: each upper-case letter starts a new
   * word. It agrees with Guava's lowerCamel to UPPER_UNDERSCORE conversion only on text that
   * starts with a lower-case letter, which every output of LowerCamel does.
   */
  function UpperUnderscoreOf(t: string): string
  {
    if t == [] then []
    else (if IsUpper(t[0]) then "_" + [t[0]] else [ToUpper(t[0])]) + UpperUnderscoreOf(t[1..])
  }

  lemma {:induction false} CamelFromRoundTrip(s: string, capitalize: bool)
    requires IsUpperUnderscore(s)
    ensures UpperUnderscoreOf(CamelFrom(s, capitalize)) == (if capitalize then "_" else "") + s
    decreases |s|
  {
    var c := if capitalize then ToUpper(s[0]) else ToLower(s[0]);
    var rest := CamelFrom(s[1..], false);
    assert CamelFrom(s, capitalize) == [c] + rest;
    assert ([c] + rest)[0] == c && ([c] + rest)[1..] == rest;
    var head := if capitalize then "_" + [s[0]] else [s[0]];
    assert UpperUnderscoreOf([c] + rest) == head + UpperUnderscoreOf(rest);
    if |s| == 1 {
      assert rest == [];
    } else if s[1] == '_' {
      var t := s[2..];
      assert |s| > 2 by { assert s[|s| - 1] != '_'; }
      assert IsUpperUnderscore(t) by {
        assert t[0] == s[2] && s[2] != '_';
        assert forall i :: 0 <= i < |t| ==> t[i] == s[i + 2];
      }
      assert s[1..][1..] == t;
      assert rest == CamelFrom(t, true);
      CamelFromRoundTrip(t, true);
      assert "_" + t == s[1..];
    } else {
      var t := s[1..];
      assert IsUpperUnderscore(t) by {
        assert forall i :: 0 <= i < |t| ==> t[i] == s[i + 1];
      }
      CamelFromRoundTrip(t, false);
    }
    assert head + s[1..] == (if capitalize then "_" else "") + s;
  }

  /** The lowerCamel form loses nothing: UPPER_UNDERSCORE identifiers come back unchanged. */
  lemma LowerCamelRoundTrip(s: string)
    requires IsUpperUnderscore(s)
    ensures UpperUnderscoreOf(LowerCamel(s)) == s
  {
    CamelFromRoundTrip(s, false);
  }

  lemma LowerCamelInjective(a: string, b: string)
    requires IsUpperUnderscore(a) && IsUpperUnderscore(b)
    ensures LowerCamel(a) == LowerCamel(b) ==> a == b
  {
    LowerCamelRoundTrip(a);
    LowerCamelRoundTrip(b);
  }

  /** Upper-case words joined by single underscores form an UPPER_UNDERSCORE identifier. */
  lemma {:induction false} JoinWordsIsUpperUnderscore(words: seq<Word>)
    requires |words| > 0
    ensures IsUpperUnderscore(JoinWords(words))
  {
    var w := words[0];
    assert IsUpperWord(w);
    assert IsUpper(w[0]) && IsUpper(w[|w| - 1]);
    if |words| > 1 {
      var t := JoinWords(words[1..]);
      JoinWordsIsUpperUnderscore(words[1..]);
      var s := w + "_" + t;
      assert JoinWords(words) == s;
      assert forall i :: 0 <= i < |w| ==> s[i] == w[i];
      assert s[|w|] == '_';
      assert forall i :: |w| < i < |s| ==> s[i] == t[i - |w| - 1];
      assert s[|s| - 1] == t[|t| - 1];
      assert forall i :: 0 <= i < |s| ==> IsUpper(s[i]) || s[i] == '_' by {
        forall i | 0 <= i < |s| ensures IsUpper(s[i]) || s[i] == '_' {
          if i < |w| { assert IsUpper(w[i]); } else if i > |w| { assert IsUpper(t[i - |w| - 1]) || t[i - |w| - 1] == '_'; }
        }
      }
      assert forall i :: 0 <= i < |s| - 1 && s[i] == '_' ==> s[i + 1] != '_' by {
        forall i | 0 <= i < |s| - 1 ensures s[i] == '_' ==> s[i + 1] != '_' {
          if i < |w| { assert IsUpper(w[i]); } else if i == |w| { assert s[i + 1] == t[0]; }
          else { assert s[i] == t[i - |w| - 1] && s[i + 1] == t[i - |w|]; }
        }
      }
    }
  }

  lemma {:induction false} JoinWordsInjective(a: seq<Word>, b: seq<Word>)
    requires |a| > 0
    requires |b| > 0
    requires JoinWords(a) == JoinWords(b)
    ensures a == b
  {
    var s := JoinWords(a);
    JoinWordsSplit(a);
    JoinWordsSplit(b);
    FirstWordLength(a, b);
    FirstWordLength(b, a);
    assert a[0] == s[..|a[0]|] == b[0];
    if |a| == 1 && |b| > 1 {
      assert false;
    } else if |b| == 1 && |a| > 1 {
      assert false;
    } else if |a| > 1 {
      assert JoinWords(a[1..]) == s[|a[0]| + 1..] == JoinWords(b[1..]);
      JoinWordsInjective(a[1..], b[1..]);
      assert a == [a[0]] + a[1..];
      assert b == [b[0]] + b[1..];
    }
  }

  /** Two joins that agree cannot have first words of different lengths. */
  lemma FirstWordLength(a: seq<Word>, b: seq<Word>)
    requires |a| > 0
    requires |b| > 0
    requires JoinWords(a) == JoinWords(b)
    ensures |a[0]| >= |b[0]|
  {
    JoinWordsSplit(a);
    JoinWordsSplit(b);
    var s, i := JoinWords(a), |a[0]|;
    assert IsUpperWord(b[0]);
    if i < |b[0]| {
      assert false;
    }
  }

  /** Where the first word of a join ends: at the end of the string or at an underscore. */
  lemma {:induction false} JoinWordsSplit(words: seq<Word>)
    requires |words| > 0
    ensures |JoinWords(words)| >= |words[0]| > 0
    ensures JoinWords(words)[..|words[0]|] == words[0]
    ensures |words| == 1 ==> JoinWords(words) == words[0]
    ensures |words| > 1 ==> |JoinWords(words)| > |words[0]| + 1 && JoinWords(words)[|words[0]|] == '_' &&
                            JoinWords(words)[|words[0]| + 1..] == JoinWords(words[1..])
  {
    assert IsUpperWord(words[0]);
    if |words| > 1 {
      JoinWordsSplit(words[1..]);
      assert IsUpperWord(words[1]);
      var s := words[0] + "_" + JoinWords(words[1..]);
      assert JoinWords(words) == s;
      assert s[..|words[0]|] == words[0];
      assert s[|words[0]| + 1..] == JoinWords(words[1..]);
    }
  }

  /** lowerCamel of a join: the first word converted, then each later word capitalised. */
  lemma {:induction false} CamelFromWordThenRest(w: string, t: string, capitalize: bool)
    requires forall i :: 0 <= i < |w| ==> IsUpper(w[i])
    ensures CamelFrom(w + t, capitalize) == CamelFrom(w, capitalize) + CamelFrom(t, capitalize && w == [])
    decreases |w|
  {
    if w != [] {
      assert IsUpper(w[0]);
      var c := if capitalize then ToUpper(w[0]) else ToLower(w[0]);
      assert (w + t)[0] == w[0] && (w + t)[1..] == w[1..] + t;
      assert CamelFrom(w + t, capitalize) == [c] + CamelFrom(w[1..] + t, false);
      assert CamelFrom(w, capitalize) == [c] + CamelFrom(w[1..], false);
      CamelFromWordThenRest(w[1..], t, false);
    } else {
      assert w + t == t;
    }
  }

  /** Converting a join: the first word, then the rest as a new word. */
  lemma CamelFromJoin(w: Word, words: seq<Word>, capitalize: bool)
    requires |words| > 0
    ensures JoinWords([w] + words) == w + "_" + JoinWords(words)
    ensures CamelFrom(JoinWords([w] + words), capitalize) == CamelFrom(w, capitalize) + CamelFrom(JoinWords(words), true)
  {
    var ws := [w] + words;
    assert ws[0] == w && ws[1..] == words && |ws| > 1;
    assert JoinWords(ws) == w + "_" + JoinWords(words);
    assert w + "_" + JoinWords(words) == w + ("_" + JoinWords(words));
    CamelFromWordThenRest(w, "_" + JoinWords(words), capitalize);
    assert ("_" + JoinWords(words))[0] == '_' && ("_" + JoinWords(words))[1..] == JoinWords(words);
  }
}
