/** Placeholder substitution: the global scan for `{{name}}` where the name
    is one or more characters other than `}`, each match replaced by the
    variable's value, or kept and reported when the variable is unknown. */
module Placeholders {
  import opened Wrappers
  import opened VariableStore

  /** A placeholder name: non-empty, no `}`. */
  predicate IsName(n: string) {
    |n| > 0 && forall i :: 0 <= i < |n| ==> n[i] != '}'
  }

  /** A run of text without `{`, so no placeholder can start in it. */
  predicate Plain(p: string) {
    forall i :: 0 <= i < |p| ==> p[i] != '{'
  }

  /** The text of the placeholder for `n`. */
  function Placeholder(n: string): string {
    "{{" + n + "}}"
  }

  /** The first index at or after `from` holding `}`, or `|s|` when there is none. */
  function CloseBrace(s: string, from: nat): (j: nat)
    requires from <= |s|
    ensures from <= j <= |s|
    ensures forall k :: from <= k < j ==> s[k] != '}'
    ensures j < |s| ==> s[j] == '}'
    decreases |s| - from
  {
    if from == |s| || s[from] == '}' then from else CloseBrace(s, from + 1)
  }

  /** The name of the placeholder that starts `s`, if one does: after `{{`
      the name runs up to the first `}`, must be non-empty, and that `}`
      must be followed by a second `}`. */
  function PlaceholderPrefix(s: string): (r: Option<string>)
    ensures r.Some? ==> IsName(r.value) && |Placeholder(r.value)| <= |s| && s[..|Placeholder(r.value)|] == Placeholder(r.value)
  {
    if |s| >= 2 && s[0] == '{' && s[1] == '{' then
      var j := CloseBrace(s, 2);
      if j > 2 && j + 1 < |s| && s[j + 1] == '}' then
        assert s[..j + 2] == Placeholder(s[2..j]);
        Some(s[2..j])
      else None
    else None
  }

  /** A text that begins with a placeholder is matched at exactly that
      placeholder: the match is unique. */
  lemma PlaceholderPrefixOf(n: string, rest: string)
    requires IsName(n)
    ensures PlaceholderPrefix(Placeholder(n) + rest) == Some(n)
  {
    var s := Placeholder(n) + rest;
    assert forall k :: 2 <= k < 2 + |n| ==> s[k] == n[k - 2];
    assert s[2 + |n|] == '}' && s[3 + |n|] == '}';
    assert s[2..2 + |n|] == n;
  }

  /** Every text either starts with no placeholder or with exactly one. */
  lemma PlaceholderPrefixSplit(s: string)
    ensures PlaceholderPrefix(s).Some? ==> s == Placeholder(PlaceholderPrefix(s).value) + s[|PlaceholderPrefix(s).value| + 4..]
  {
    if PlaceholderPrefix(s).Some? {
      var n := PlaceholderPrefix(s).value;
      assert s == s[..|n| + 4] + s[|n| + 4..];
    }
  }

  /** A scanned piece of text: one character copied as it is, or a matched placeholder. */
  datatype Token = Literal(c: char) | Reference(name: string)

  /** The text a token was scanned from. */
  function Lexeme(t: Token): string {
    match t
    case Literal(c) => [c]
    case Reference(n) => Placeholder(n)
  }

  /** The text a token sequence was scanned from. */
  function Raw(toks: seq<Token>): string {
    if toks == [] then "" else Lexeme(toks[0]) + Raw(toks[1..])
  }

  /** The left-to-right scan: a match is taken where one starts and the scan
      resumes after its closing `}}`; elsewhere one character is copied and the
      scan moves on by one. */
  function Tokenize(text: string): (toks: seq<Token>)
    ensures |toks| <= |text|
    ensures Raw(toks) == text
    decreases |text|
  {
    if text == [] then []
    else match PlaceholderPrefix(text)
      case Some(n) =>
        var rest := Tokenize(text[|n| + 4..]);
        PlaceholderPrefixSplit(text);
        RawCons(Reference(n), rest);
        [Reference(n)] + rest
      case None =>
        var rest := Tokenize(text[1..]);
        assert text == [text[0]] + text[1..];
        RawCons(Literal(text[0]), rest);
        [Literal(text[0])] + rest
  }

  /** The tokens a scan may produce: each reference is exactly the match that
      starts where it stands, and each literal stands where no match starts. */
  ghost predicate ScanConsistent(toks: seq<Token>) {
    forall k :: 0 <= k < |toks| ==>
      PlaceholderPrefix(Raw(toks[k..])) == (if toks[k].Reference? then Some(toks[k].name) else None)
  }

  /** Prepending a token prepends its lexeme. */
  lemma RawCons(t: Token, rest: seq<Token>)
    ensures Raw([t] + rest) == Lexeme(t) + Raw(rest)
  {
    assert ([t] + rest)[1..] == rest;
  }

  /** Prepending a token that agrees with the placeholder syntax keeps a
      token sequence consistent. */
  lemma ConsistentCons(t: Token, rest: seq<Token>)
    requires ScanConsistent(rest)
    requires PlaceholderPrefix(Lexeme(t) + Raw(rest)) == (if t.Reference? then Some(t.name) else None)
    ensures ScanConsistent([t] + rest)
  {
    var toks := [t] + rest;
    RawCons(t, rest);
    forall k | 0 <= k < |toks|
      ensures PlaceholderPrefix(Raw(toks[k..])) == (if toks[k].Reference? then Some(toks[k].name) else None)
    {
      if k == 0 {
        assert toks[k..] == toks;
      } else {
        assert toks[k..] == rest[k - 1..];
      }
    }
  }

  /** The scan covers the text exactly once and in order, and agrees with the
      placeholder syntax at every token. */
  lemma {:induction false} TokenizeSound(text: string)
    ensures ScanConsistent(Tokenize(text))
    decreases |text|
  {
    if text != [] {
      match PlaceholderPrefix(text)
      case Some(n) =>
        PlaceholderPrefixSplit(text);
        var tail := text[|n| + 4..];
        TokenizeSound(tail);
        RawCons(Reference(n), Tokenize(tail));
        ConsistentCons(Reference(n), Tokenize(tail));
      case None =>
        var tail := text[1..];
        assert text == [text[0]] + tail;
        TokenizeSound(tail);
        RawCons(Literal(text[0]), Tokenize(tail));
        ConsistentCons(Literal(text[0]), Tokenize(tail));
    }
  }

  /** The scan is the only consistent way to cut a text into tokens. */
  lemma {:induction false} TokenizeUnique(text: string, toks: seq<Token>)
    requires Raw(toks) == text
    requires ScanConsistent(toks)
    ensures toks == Tokenize(text)
    decreases |text|
  {
    if toks != [] {
      assert toks[0..] == toks;
      var rest := toks[1..];
      assert ScanConsistent(rest) by {
        forall k | 0 <= k < |rest|
          ensures PlaceholderPrefix(Raw(rest[k..])) == (if rest[k].Reference? then Some(rest[k].name) else None)
        {
          assert rest[k..] == toks[k + 1..];
        }
      }
      match toks[0]
      case Reference(n) =>
        assert PlaceholderPrefix(text) == Some(n);
        assert text[|n| + 4..] == Raw(rest);
        TokenizeUnique(Raw(rest), rest);
      case Literal(c) =>
        assert PlaceholderPrefix(text) == None;
        assert text[1..] == Raw(rest);
        TokenizeUnique(Raw(rest), rest);
    }
  }

  /** The outcome of a substitution: the rewritten text and the names of the
      placeholders left in place, in occurrence order. */
  datatype Substitution = Substitution(result: string, missingVariables: seq<string>)

  /** What a placeholder turns into: its value, or itself when unknown. */
  function Filled(vars: seq<Variable>, n: string): string {
    match Lookup(vars, n)
    case Some(v) => v
    case None => Placeholder(n)
  }

  /** The names a placeholder reports: none when known, its own when not. */
  function Missed(vars: seq<Variable>, n: string): seq<string> {
    if Lookup(vars, n).Some? then [] else [n]
  }

  /** Rewrites one token in front of the rewrite `tail` of the tokens after
      it: a known reference becomes its value, inserted verbatim; an unknown
      one stays as written and its name is reported first. */
  function RenderToken(vars: seq<Variable>, t: Token, tail: Substitution): Substitution {
    match t
    case Literal(c) => Substitution([c] + tail.result, tail.missingVariables)
    case Reference(n) => Substitution(Filled(vars, n) + tail.result, Missed(vars, n) + tail.missingVariables)
  }

  /** Rewrites scanned tokens, one after the other. */
  function Render(vars: seq<Variable>, toks: seq<Token>): (r: Substitution)
    ensures forall n :: n in r.missingVariables ==> Lookup(vars, n).None?
    ensures forall k :: 0 <= k < |toks| && toks[k].Reference? && Lookup(vars, toks[k].name).None? ==>
      toks[k].name in r.missingVariables
  {
    if toks == [] then Substitution("", [])
    else
      var rest := Render(vars, toks[1..]);
      assert forall k :: 1 <= k < |toks| ==> toks[k] == toks[1..][k - 1];
      RenderToken(vars, toks[0], rest)
  }

  /** Substitution of every placeholder in `text` against the variable list,
      as the left-to-right scan that produces it: a match is rewritten and
      the scan resumes after its `}}`, elsewhere one character is copied. */
  function Substitute(vars: seq<Variable>, text: string): (r: Substitution)
    ensures forall n :: n in r.missingVariables ==> Lookup(vars, n).None?
    decreases |text|
  {
    if text == [] then Substitution("", [])
    else match PlaceholderPrefix(text)
      case Some(n) => RenderToken(vars, Reference(n), Substitute(vars, text[|n| + 4..]))
      case None => RenderToken(vars, Literal(text[0]), Substitute(vars, text[1..]))
  }

  /** The scan in one pass is the rewrite of the tokens the scan cuts out. */
  lemma {:induction false} SubstituteRendersTokens(vars: seq<Variable>, text: string)
    ensures Substitute(vars, text) == Render(vars, Tokenize(text))
    decreases |text|
  {
    if text != [] {
      match PlaceholderPrefix(text)
      case Some(n) =>
        SubstituteRendersTokens(vars, text[|n| + 4..]);
        RenderCons(vars, Reference(n), Tokenize(text[|n| + 4..]));
      case None =>
        SubstituteRendersTokens(vars, text[1..]);
        RenderCons(vars, Literal(text[0]), Tokenize(text[1..]));
    }
  }

  /** Rewriting a token in front of others. */
  lemma RenderCons(vars: seq<Variable>, t: Token, rest: seq<Token>)
    ensures Render(vars, [t] + rest) == RenderToken(vars, t, Render(vars, rest))
  {
    assert ([t] + rest)[1..] == rest;
  }

  /** The two parts of a rewrite one after the other. */
  function Concat(x: Substitution, y: Substitution): Substitution {
    Substitution(x.result + y.result, x.missingVariables + y.missingVariables)
  }

  /** Rewrites can be joined in any grouping. */
  lemma ConcatAssoc(x: Substitution, y: Substitution, z: Substitution)
    ensures Concat(x, Concat(y, z)) == Concat(Concat(x, y), z)
  {
  }

  /** Rewriting one token commutes with appending what follows. */
  lemma RenderTokenConcat(vars: seq<Variable>, t: Token, x: Substitution, y: Substitution)
    ensures RenderToken(vars, t, Concat(x, y)) == Concat(RenderToken(vars, t, x), y)
  {
    match t
    case Literal(c) =>
      assert [c] + (x.result + y.result) == ([c] + x.result) + y.result;
    case Reference(n) =>
      assert Filled(vars, n) + (x.result + y.result) == (Filled(vars, n) + x.result) + y.result;
      assert Missed(vars, n) + (x.missingVariables + y.missingVariables)
        == (Missed(vars, n) + x.missingVariables) + y.missingVariables;
  }

  /** Rewriting is a single pass: the rewrite of two runs of tokens is the
      rewrite of the first followed by that of the second, for the text and
      for the reported names alike. */
  lemma {:induction false} RenderAppend(vars: seq<Variable>, a: seq<Token>, b: seq<Token>)
    ensures Render(vars, a + b) == Concat(Render(vars, a), Render(vars, b))
  {
    if a == [] {
      assert a + b == b;
      assert Render(vars, a) == Substitution([], []);
      assert Concat(Substitution([], []), Render(vars, b)) == Render(vars, b);
    } else {
      assert a == [a[0]] + a[1..];
      assert a + b == [a[0]] + (a[1..] + b);
      RenderCons(vars, a[0], a[1..] + b);
      RenderCons(vars, a[0], a[1..]);
      RenderAppend(vars, a[1..], b);
      RenderTokenConcat(vars, a[0], Render(vars, a[1..]), Render(vars, b));
    }
  }

  /** When no reference is known, the text comes back as it was. */
  lemma {:induction false} RenderAllUnknown(vars: seq<Variable>, toks: seq<Token>)
    requires forall k :: 0 <= k < |toks| && toks[k].Reference? ==> Lookup(vars, toks[k].name).None?
    ensures Render(vars, toks).result == Raw(toks)
  {
    if toks != [] {
      assert forall k :: 1 <= k < |toks| ==> toks[1..][k - 1] == toks[k];
      RenderAllUnknown(vars, toks[1..]);
    }
  }

  /** A text that starts with a placeholder: a known name is replaced by its
      value, an unknown one is kept and reported first, and the rest of the
      text is processed on its own, so an inserted value is never rescanned. */
  lemma SubstituteReference(vars: seq<Variable>, n: string, rest: string)
    requires IsName(n)
    ensures var tail := Substitute(vars, rest);
      Substitute(vars, Placeholder(n) + rest)
        == Substitution(Filled(vars, n) + tail.result, Missed(vars, n) + tail.missingVariables)
  {
    var text := Placeholder(n) + rest;
    PlaceholderPrefixOf(n, rest);
    assert text[|n| + 4..] == rest;
  }

  /** A text that does not start with a placeholder: its first character is
      copied and the scan resumes one character later. */
  lemma SubstituteLiteral(vars: seq<Variable>, c: char, rest: string)
    requires PlaceholderPrefix([c] + rest).None?
    ensures var tail := Substitute(vars, rest);
      Substitute(vars, [c] + rest) == Substitution([c] + tail.result, tail.missingVariables)
  {
    var text := [c] + rest;
    assert text[1..] == rest;
  }

  /** The scan step at position `i` of `text` where a placeholder starts. */
  lemma SubstituteMatchAt(vars: seq<Variable>, text: string, i: nat, n: string)
    requires i < |text| && PlaceholderPrefix(text[i..]) == Some(n)
    ensures i + |n| + 4 <= |text| && text[i..i + |n| + 4] == Placeholder(n)
    ensures Substitute(vars, text[i..])
      == Concat(Substitution(Filled(vars, n), Missed(vars, n)), Substitute(vars, text[i + |n| + 4..]))
  {
    assert text[i..][|n| + 4..] == text[i + |n| + 4..];
    assert text[i..][..|n| + 4] == text[i..i + |n| + 4];
  }

  /** The scan step at position `i` of `text` where no placeholder starts. */
  lemma SubstituteCopyAt(vars: seq<Variable>, text: string, i: nat)
    requires i < |text| && PlaceholderPrefix(text[i..]).None?
    ensures Substitute(vars, text[i..]) == Concat(Substitution([text[i]], []), Substitute(vars, text[i + 1..]))
  {
    assert text[i..][1..] == text[i + 1..];
  }

  /** A text with no match anywhere comes back unchanged with nothing missing. */
  lemma {:induction false} SubstituteNoPlaceholder(vars: seq<Variable>, text: string)
    requires forall i :: 0 <= i <= |text| ==> PlaceholderPrefix(text[i..]).None?
    ensures Substitute(vars, text) == Substitution(text, [])
    decreases |text|
  {
    if text != [] {
      var rest := text[1..];
      assert text == [text[0]] + rest;
      assert text[0..] == text;
      assert forall i :: 0 <= i <= |rest| ==> rest[i..] == text[i + 1..];
      SubstituteNoPlaceholder(vars, rest);
      SubstituteLiteral(vars, text[0], rest);
    }
  }

  /** A run of text without `{` is copied as it is, whatever follows it. */
  lemma {:induction false} SubstitutePlainPrefix(vars: seq<Variable>, plain: string, rest: string)
    requires Plain(plain)
    ensures var tail := Substitute(vars, rest);
      Substitute(vars, plain + rest) == Substitution(plain + tail.result, tail.missingVariables)
    decreases |plain|
  {
    var tail := Substitute(vars, rest);
    if plain != [] {
      var c, more := plain[0], plain[1..];
      assert plain == [c] + more;
      var inner := Substitute(vars, more + rest);
      assert inner == Substitution(more + tail.result, tail.missingVariables) by {
        SubstitutePlainPrefix(vars, more, rest);
      }
      assert Substitute(vars, [c] + (more + rest)) == Substitution([c] + inner.result, inner.missingVariables) by {
        SubstituteLiteral(vars, c, more + rest);
      }
      Assoc([c], more, rest);
      Assoc([c], more, tail.result);
    } else {
      assert plain + rest == rest;
      assert plain + tail.result == tail.result;
    }
  }

  /** The names of the references among `toks`, in order, repeats kept. */
  function ReferenceNames(toks: seq<Token>): seq<string> {
    if toks == [] then []
    else if toks[0].Reference? then [toks[0].name] + ReferenceNames(toks[1..])
    else ReferenceNames(toks[1..])
  }

  /** With no variables every reference is kept as written and reported. */
  lemma {:induction false} RenderWithoutVariables(toks: seq<Token>)
    ensures Render([], toks) == Substitution(Raw(toks), ReferenceNames(toks))
  {
    if toks != [] {
      RenderWithoutVariables(toks[1..]);
    }
  }

  /** With no variables defined, the text is unchanged and the missing list
      is the name of every placeholder, in occurrence order, repeats kept. */
  lemma SubstituteWithoutVariables(text: string)
    ensures Substitute([], text) == Substitution(text, ReferenceNames(Tokenize(text)))
  {
    SubstituteRendersTokens([], text);
    RenderWithoutVariables(Tokenize(text));
  }

  /** Regrouping a concatenation of three strings. */
  lemma Assoc(a: string, b: string, c: string)
    ensures a + b + c == a + (b + c)
  {
  }

  /** Regrouping a concatenation of five strings. */
  lemma Regroup(a: string, b: string, c: string, d: string, e: string)
    ensures a + b + c + d + e == a + (b + c + (d + e))
  {
    assert b + c + (d + e) == b + c + d + e;
  }

  /** A placeholder followed by plain text: the placeholder is filled in or
      kept, the plain text is copied, and the scan goes on after it. */
  lemma SubstituteSegment(vars: seq<Variable>, n: string, p: string, rest: string)
    requires IsName(n) && Plain(p)
    ensures var tail := Substitute(vars, rest);
      Substitute(vars, Placeholder(n) + p + rest)
        == Substitution(Filled(vars, n) + p + tail.result, Missed(vars, n) + tail.missingVariables)
  {
    var tail := Substitute(vars, rest);
    var f, m := Filled(vars, n), Missed(vars, n);
    assert Substitute(vars, p + rest) == Substitution(p + tail.result, tail.missingVariables) by {
      SubstitutePlainPrefix(vars, p, rest);
    }
    assert Substitute(vars, Placeholder(n) + (p + rest))
      == Substitution(f + (p + tail.result), m + tail.missingVariables) by {
      SubstituteReference(vars, n, p + rest);
    }
    Assoc(Placeholder(n), p, rest);
    Assoc(f, p, tail.result);
  }

  /** Two placeholders between runs of plain text: each is filled in or kept
      on its own, the plain text stays around them, and the unknown names are
      reported in order. */
  lemma SubstituteTwo(vars: seq<Variable>, p0: string, n1: string, p1: string, n2: string, p2: string)
    requires IsName(n1) && IsName(n2)
    requires Plain(p0) && Plain(p1) && Plain(p2)
    ensures Substitute(vars, p0 + Placeholder(n1) + p1 + Placeholder(n2) + p2)
      == Substitution(p0 + Filled(vars, n1) + p1 + Filled(vars, n2) + p2, Missed(vars, n1) + Missed(vars, n2))
  {
    var f1, f2 := Filled(vars, n1), Filled(vars, n2);
    var m1, m2 := Missed(vars, n1), Missed(vars, n2);
    var last := Placeholder(n2) + p2;
    assert Substitute(vars, last) == Substitution(f2 + p2, m2) by {
      assert Substitute(vars, "") == Substitution("", []);
      SubstituteSegment(vars, n2, p2, "");
      assert Placeholder(n2) + p2 + "" == last;
      assert f2 + p2 + "" == f2 + p2 && m2 + [] == m2;
    }
    var mid := Placeholder(n1) + p1 + last;
    assert Substitute(vars, mid) == Substitution(f1 + p1 + (f2 + p2), m1 + m2) by {
      SubstituteSegment(vars, n1, p1, last);
    }
    assert Substitute(vars, p0 + mid) == Substitution(p0 + (f1 + p1 + (f2 + p2)), m1 + m2) by {
      SubstitutePlainPrefix(vars, p0, mid);
    }
    Regroup(p0, Placeholder(n1), p1, Placeholder(n2), p2);
    Regroup(p0, f1, p1, f2, p2);
  }

  /** With no variables, two placeholders are kept and exactly their two
      names are reported, in order. */
  lemma TwoUnknown(p0: string, n1: string, p1: string, n2: string, p2: string)
    requires IsName(n1) && IsName(n2)
    requires Plain(p0) && Plain(p1) && Plain(p2)
    ensures Substitute([], p0 + Placeholder(n1) + p1 + Placeholder(n2) + p2)
      == Substitution(p0 + Placeholder(n1) + p1 + Placeholder(n2) + p2, [n1, n2])
  {
    SubstituteTwo([], p0, n1, p1, n2, p2);
  }

  /** A known and an unknown placeholder: the known one is replaced, the
      unknown one is kept and is the only name reported. */
  lemma KnownThenUnknown(p0: string, a: string, x: string, p1: string, b: string, p2: string)
    requires IsName(a) && IsName(b) && a != b
    requires Plain(p0) && Plain(p1) && Plain(p2)
    ensures Substitute([Variable(a, x)], p0 + Placeholder(a) + p1 + Placeholder(b) + p2)
      == Substitution(p0 + x + p1 + Placeholder(b) + p2, [b])
  {
    SubstituteTwo([Variable(a, x)], p0, a, p1, b, p2);
  }

  /** Two known placeholders are both replaced and nothing is reported. */
  lemma TwoKnown(p0: string, n1: string, v1: string, p1: string, n2: string, v2: string, p2: string)
    requires IsName(n1) && IsName(n2) && n1 != n2
    requires Plain(p0) && Plain(p1) && Plain(p2)
    ensures Substitute([Variable(n1, v1), Variable(n2, v2)],
                       p0 + Placeholder(n1) + p1 + Placeholder(n2) + p2)
      == Substitution(p0 + v1 + p1 + v2 + p2, [])
  {
    var vars := [Variable(n1, v1), Variable(n2, v2)];
    assert vars[1..] == [Variable(n2, v2)];
    assert Lookup(vars, n2) == Some(v2);
    SubstituteTwo(vars, p0, n1, p1, n2, p2);
  }
}
