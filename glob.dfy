/**
  A model of Python's `fnmatch.fnmatch(name, pat)` on a POSIX system, the
  glob test used for repository keys and file patterns alike.

  Python translates the pattern into a regular expression and matches the
  whole name against it.  The model does the same in two stages: `Translate`
  turns the pattern into a sequence of `Token`s, and `TokensMatch` matches a
  name against them.  As in Python:
  - `*` matches any run of characters, `/` included (no pathname rule);
  - `?` matches exactly one character;
  - `[seq]` and `[!seq]` match one character in, or not in, `seq`, where
    `x-y` is a range and a reversed range matches nothing; a `]` right after
    `[` or `[!` is a member; a `[` without a closing `]` is a literal;
  - there is no backslash escaping and no case folding.
*/
module Glob {
  import opened Wrappers

  /** One member of a bracket class. */
  datatype ClassItem = Single(c: char) | Range(lo: char, hi: char)

  datatype Token =
    | Literal(c: char)                              // an ordinary character
    | AnyChar                                       // `?`
    | AnyRun                                        // `*`
    | Class(negated: bool, items: seq<ClassItem>)   // `[...]` or `[!...]`

  /** The characters that `Translate` does not read as themselves. */
  predicate IsMeta(c: char) {
    c == '*' || c == '?' || c == '['
  }

  /** A pattern made only of ordinary characters. */
  predicate IsPlain(s: string) {
    forall k :: 0 <= k < |s| ==> !IsMeta(s[k])
  }

  /** The index of the first `]` in `s` at or after `from`, if any. */
  function FindClose(s: string, from: nat): (r: Option<nat>)
    ensures r.Some? ==> from <= r.value < |s| && s[r.value] == ']'
    ensures r.Some? ==> forall k :: from <= k < r.value ==> s[k] != ']'
    ensures r.None? ==> forall k :: from <= k < |s| ==> s[k] != ']'
    decreases |s| - from
  {
    if from >= |s| then None
    else if s[from] == ']' then Some(from)
    else FindClose(s, from + 1)
  }

  /** The members of a bracket class, read left to right: a character
      followed by `-` and one more character is a range. */
  function ParseItems(body: string): (items: seq<ClassItem>)
    ensures |body| > 0 ==> |items| > 0
  {
    if |body| == 0 then []
    else if |body| >= 3 && body[1] == '-' then [Range(body[0], body[2])] + ParseItems(body[3..])
    else [Single(body[0])] + ParseItems(body[1..])
  }

  /** The token sequence of a pattern (Python's `fnmatch.translate`).
      Every token uses up at least one pattern character. */
  function Translate(pat: string): (r: seq<Token>)
    ensures |r| <= |pat|
    decreases 2 * |pat|
  {
    if |pat| == 0 then []
    else if pat[0] == '*' then [AnyRun] + Translate(pat[1..])
    else if pat[0] == '?' then [AnyChar] + Translate(pat[1..])
    else if pat[0] == '[' then TranslateBracket(pat[1..])
    else [Literal(pat[0])] + Translate(pat[1..])
  }

  /** The tokens of the text `rest` that follows a `[`: a class up to the
      closing `]`, or, when there is none, a literal `[`. */
  function TranslateBracket(rest: string): (r: seq<Token>)
    ensures |r| <= |rest| + 1
    decreases 2 * |rest| + 1
  {
    var start := if |rest| > 0 && rest[0] == '!' then 1 else 0;
    var from := if start < |rest| && rest[start] == ']' then start + 1 else start;
    match FindClose(rest, from)
    case None => [Literal('[')] + Translate(rest)
    case Some(j) => [Class(start == 1, ParseItems(rest[start..j]))] + Translate(rest[j + 1..])
  }

  predicate ItemContains(item: ClassItem, c: char) {
    match item
    case Single(x) => c == x
    case Range(lo, hi) => lo <= c <= hi
  }

  /** Whether a token that stands for one character accepts `c`. */
  predicate TokenAccepts(t: Token, c: char)
    requires !t.AnyRun?
  {
    match t
    case Literal(x) => c == x
    case AnyChar => true
    case Class(negated, items) => (exists k :: 0 <= k < |items| && ItemContains(items[k], c)) != negated
  }

  /** Whether the token sequence contains no `*`. */
  predicate StarFree(toks: seq<Token>) {
    forall k :: 0 <= k < |toks| ==> !toks[k].AnyRun?
  }

  /** Whether the whole of `s` matches the token sequence. Without a `*`
      every token takes exactly one character, so a match has the
      length of the token sequence. */
  predicate TokensMatch(toks: seq<Token>, s: string)
    ensures TokensMatch(toks, s) && StarFree(toks) ==> |s| == |toks|
    decreases |toks| + |s|
  {
    if |toks| == 0 then |s| == 0
    else if toks[0].AnyRun? then TokensMatch(toks[1..], s) || (|s| > 0 && TokensMatch(toks, s[1..]))
    else |s| > 0 && TokenAccepts(toks[0], s[0]) && TokensMatch(toks[1..], s[1..])
  }

  /** `fnmatch.fnmatch(name, pat)`. The empty pattern matches only the
      empty name, a lone `*` matches every name (a `/` included), and a
      pattern with no `*` outside a bracket class matches only names of
      at most its length. */
  predicate Fnmatch(name: string, pat: string)
    ensures pat == "" ==> (Fnmatch(name, pat) <==> name == "")
    ensures pat == "*" ==> Fnmatch(name, pat)
    ensures Fnmatch(name, pat) && StarFree(Translate(pat)) ==> |name| <= |pat|
  {
    if pat == "*" then
      assert Translate(pat[1..]) == [];
      assert Translate(pat) == [AnyRun];
      AnyRunMatchesAll(name);
      TokensMatch(Translate(pat), name)
    else
      TokensMatch(Translate(pat), name)
  }

  // ---------------------------------------------------------------------
  // Properties of the matcher
  // ---------------------------------------------------------------------

  /** A plain pattern translates into one literal per character. */
  lemma {:induction false} TranslatePlain(pat: string)
    requires IsPlain(pat)
    ensures |Translate(pat)| == |pat|
    ensures forall k :: 0 <= k < |pat| ==> Translate(pat)[k] == Literal(pat[k])
  {
    if |pat| > 0 {
      assert !IsMeta(pat[0]);
      assert IsPlain(pat[1..]) by {
        forall k | 0 <= k < |pat[1..]| ensures !IsMeta(pat[1..][k]) {
          assert pat[1..][k] == pat[k + 1];
        }
      }
      TranslatePlain(pat[1..]);
    }
  }

  /** Translation of a plain prefix followed by anything. */
  lemma {:induction false} TranslatePlainPrefix(prefix: string, tail: string)
    requires IsPlain(prefix)
    ensures Translate(prefix + tail) == Translate(prefix) + Translate(tail)
  {
    if |prefix| > 0 {
      assert !IsMeta(prefix[0]);
      assert (prefix + tail)[0] == prefix[0];
      assert (prefix + tail)[1..] == prefix[1..] + tail;
      assert IsPlain(prefix[1..]) by {
        forall k | 0 <= k < |prefix[1..]| ensures !IsMeta(prefix[1..][k]) {
          assert prefix[1..][k] == prefix[k + 1];
        }
      }
      TranslatePlainPrefix(prefix[1..], tail);
    } else {
      assert prefix + tail == tail;
    }
  }

  /** Literal tokens in front of `toks` consume exactly their own text. */
  lemma {:induction false} LiteralsThenMatch(lit: string, toks: seq<Token>, s: string)
    requires IsPlain(lit)
    ensures TokensMatch(Translate(lit) + toks, s)
        <==> |lit| <= |s| && s[..|lit|] == lit && TokensMatch(toks, s[|lit|..])
  {
    TranslatePlain(lit);
    if |lit| == 0 {
      assert Translate(lit) + toks == toks;
      assert s[..0] == lit;
    } else {
      var all := Translate(lit) + toks;
      assert all[0] == Literal(lit[0]);
      assert IsPlain(lit[1..]) by {
        forall k | 0 <= k < |lit[1..]| ensures !IsMeta(lit[1..][k]) {
          assert lit[1..][k] == lit[k + 1];
        }
      }
      TranslatePlain(lit[1..]);
      assert Translate(lit)[1..] == Translate(lit[1..]);
      assert all[1..] == Translate(lit[1..]) + toks;
      if |s| > 0 {
        LiteralsThenMatch(lit[1..], toks, s[1..]);
        if |lit| <= |s| {
          assert s[..|lit|] == [s[0]] + s[1..][..|lit| - 1];
          assert lit == [lit[0]] + lit[1..];
          assert s[1..][|lit| - 1..] == s[|lit|..];
        }
      }
    }
  }

  /** A plain pattern matches exactly the name equal to it (so matching is
      case-sensitive). */
  lemma FnmatchPlain(name: string, pat: string)
    requires IsPlain(pat)
    ensures Fnmatch(name, pat) <==> name == pat
  {
    LiteralsThenMatch(pat, [], name);
    assert Translate(pat) + [] == Translate(pat);
    if |pat| <= |name| && name[..|pat|] == pat && |name[|pat|..]| == 0 {
      assert name == name[..|pat|];
    }
  }

  /** `*` matches some suffix of the name, whatever characters (`/`
      included) it skips. */
  lemma {:induction false} AnyRunSplits(toks: seq<Token>, s: string)
    ensures TokensMatch([AnyRun] + toks, s) <==> exists k :: 0 <= k <= |s| && TokensMatch(toks, s[k..])
    decreases |s|
  {
    var all := [AnyRun] + toks;
    assert all[1..] == toks;
    if |s| == 0 {
      assert s[0..] == s;
    } else {
      AnyRunSplits(toks, s[1..]);
      assert s[0..] == s;
      if exists k :: 0 <= k <= |s| && TokensMatch(toks, s[k..]) {
        var k :| 0 <= k <= |s| && TokensMatch(toks, s[k..]);
        if k > 0 {
          assert s[1..][k - 1..] == s[k..];
        }
      }
      if exists k :: 0 <= k <= |s[1..]| && TokensMatch(toks, s[1..][k..]) {
        var k :| 0 <= k <= |s[1..]| && TokensMatch(toks, s[1..][k..]);
        assert s[1..][k..] == s[k + 1..];
      }
    }
  }

  /** A single `*` matches every name. */
  lemma {:induction false} AnyRunMatchesAll(s: string)
    ensures TokensMatch([AnyRun], s)
  {
    AnyRunSplits([], s);
    assert [AnyRun] + [] == [AnyRun];
    assert TokensMatch([], s[|s|..]);
  }

  /** `prefix*` with a plain prefix matches exactly the names that start
      with the prefix, however many `/` follow. */
  lemma FnmatchPrefixStar(name: string, prefix: string)
    requires IsPlain(prefix)
    ensures Fnmatch(name, prefix + "*") <==> |prefix| <= |name| && name[..|prefix|] == prefix
  {
    TranslatePlainPrefix(prefix, "*");
    assert Translate("*") == [AnyRun];
    LiteralsThenMatch(prefix, [AnyRun], name);
    AnyRunMatchesAll(name[(if |prefix| <= |name| then |prefix| else 0)..]);
  }

  /** The class body after `[` or `[!` and the closing `]` found for it. */
  lemma ClassBodyCloses(neg: string, body: string, tail: string, from: nat)
    requires |neg| <= 1 && |body| > 0
    requires |neg| <= from <= |neg| + 1
    requires forall k :: 1 <= k < |body| ==> body[k] != ']'
    requires from == |neg| + 1 ==> body[0] == ']'
    requires body[0] == ']' ==> from == |neg| + 1
    ensures FindClose(neg + body + "]" + tail, from) == Some(|neg| + |body|)
  {
    var rest := neg + body + "]" + tail;
    var close := |neg| + |body|;
    assert rest[close] == ']';
    assert forall k :: from <= k < close ==> rest[k] == body[k - |neg|];
  }

  /** The text after `[` or `[!`, up to and past the closing `]`. */
  lemma BracketBody(neg: string, body: string, tail: string)
    requires neg == "" || neg == "!"
    requires |body| > 0 && (neg == "" ==> body[0] != '!')
    requires forall k :: 1 <= k < |body| ==> body[k] != ']'
    ensures TranslateBracket(neg + body + "]" + tail) == [Class(neg == "!", ParseItems(body))] + Translate(tail)
  {
    var rest := neg + body + "]" + tail;
    var start := |neg|;
    assert rest[start] == body[0];
    assert start == 1 <==> neg == "!";
    var from := if rest[start] == ']' then start + 1 else start;
    ClassBodyCloses(neg, body, tail, from);
    var close := start + |body|;
    assert forall k :: 0 <= k < |body| ==> rest[start + k] == body[k];
    assert rest[start..close] == body;
    assert rest[close + 1..] == tail;
  }

  /** A closed bracket class `[body]` or `[!body]` becomes one class token
      whose members are read from `body`; a `]` is a member only in first
      place. */
  lemma TranslateClass(negated: bool, body: string, tail: string)
    requires |body| > 0 && (!negated ==> body[0] != '!')
    requires forall k :: 1 <= k < |body| ==> body[k] != ']'
    ensures Translate("[" + (if negated then "!" else "") + body + "]" + tail)
         == [Class(negated, ParseItems(body))] + Translate(tail)
  {
    var neg := if negated then "!" else "";
    var rest := neg + body + "]" + tail;
    assert "[" + neg + body + "]" + tail == "[" + rest;
    assert ("[" + rest)[0] == '[' && ("[" + rest)[1..] == rest;
    BracketBody(neg, body, tail);
  }
}
