/**
 * The spec lexer. At every position the scanner tries, in order, the
 * single-character tokens `^ @ : , + - ~ % =`, then an identifier (a word
 * character followed by word characters, dots and dashes, taken as long as
 * possible), then a run of whitespace, which is dropped. Any other
 * character stops the scan with an error that carries the unscanned rest.
 * Because `-` may continue an identifier, `-` right after an identifier
 * character belongs to that identifier; `~` never does.
 */
module SpecLexer {
  import opened Wrappers

  /** Off stands for both `-` and `~`; identifiers carry their text. */
  datatype Token = Dep | At | Colon | Comma | On | Off | Pct | Eq | Id(text: string)

  datatype LexError = InvalidCharacter(rest: string)

  /** Word characters of a byte-string regular expression: letters, digits and underscore. */
  predicate IsWordChar(c: char)
  {
    'a' <= c <= 'z' || 'A' <= c <= 'Z' || '0' <= c <= '9' || c == '_'
  }

  predicate IsIdChar(c: char)
  {
    IsWordChar(c) || c == '.' || c == '-'
  }

  predicate IsSpace(c: char)
  {
    c == ' ' || c == '\t' || c == '\n' || c == '\r' || c == '\U{0B}' || c == '\U{0C}'
  }

  predicate AllSpace(w: string)
  {
    forall i :: 0 <= i < |w| ==> IsSpace(w[i])
  }

  /** The text of an identifier token: what the identifier pattern matches in full. */
  predicate IsIdent(w: string)
  {
    w != [] && IsWordChar(w[0]) && forall i :: 0 <= i < |w| ==> IsIdChar(w[i])
  }

  /** The token a single punctuation character stands for. */
  function PunctToken(c: char): (t: Option<Token>)
    ensures t.Some? ==> !t.value.Id? && (!IsIdChar(c) || c == '-')
    ensures t.Some? ==> !IsSpace(c) && !IsWordChar(c)
  {
    match c
    case '^' => Some(Dep)
    case '@' => Some(At)
    case ':' => Some(Colon)
    case ',' => Some(Comma)
    case '+' => Some(On)
    case '-' => Some(Off)
    case '~' => Some(Off)
    case '%' => Some(Pct)
    case '=' => Some(Eq)
    case _ => None
  }

  /** The longest prefix of `s` made of identifier characters. */
  function IdRun(s: string): (n: nat)
    ensures n <= |s|
    ensures forall i :: 0 <= i < n ==> IsIdChar(s[i])
    ensures n < |s| ==> !IsIdChar(s[n])
  {
    if s == [] || !IsIdChar(s[0]) then 0 else 1 + IdRun(s[1..])
  }

  /** Length of the identifier that starts `s`. */
  function IdentLength(s: string): (n: nat)
    requires s != [] && IsWordChar(s[0])
    ensures 1 <= n <= |s| && IsIdent(s[..n])
    ensures n < |s| ==> !IsIdChar(s[n])
  {
    1 + IdRun(s[1..])
  }

  /**
   * Splits `s` into tokens. On success every identifier token is a whole
   * identifier; on failure the error holds the rest of the input from the
   * first character no token pattern matches.
   */
  function Lex(s: string): (r: Result<seq<Token>, LexError>)
    ensures r.Success? ==> forall i :: 0 <= i < |r.value| && r.value[i].Id? ==> IsIdent(r.value[i].text)
    ensures r.Failure? ==> |r.error.rest| <= |s| && r.error.rest == s[|s| - |r.error.rest|..]
    ensures r.Failure? ==>
              && r.error.rest != [] && PunctToken(r.error.rest[0]).None?
              && !IsSpace(r.error.rest[0]) && !IsWordChar(r.error.rest[0])
    decreases |s|
  {
    if s == [] then Success([])
    else if PunctToken(s[0]).Some? then
      var rest :- Lex(s[1..]);
      Success([PunctToken(s[0]).value] + rest)
    else if IsWordChar(s[0]) then
      var n := IdentLength(s);
      var rest :- Lex(s[n..]);
      Success([Id(s[..n])] + rest)
    else if IsSpace(s[0]) then
      Lex(s[1..])
    else
      Failure(InvalidCharacter(s))
  }

  /** The scan of `ts` followed by the scan `r` of the rest of the input. */
  function Prepend(ts: seq<Token>, r: Result<seq<Token>, LexError>): Result<seq<Token>, LexError>
  {
    if r.Success? then Success(ts + r.value) else r
  }

  lemma PrependAssociates(x: seq<Token>, y: seq<Token>, r: Result<seq<Token>, LexError>)
    ensures Prepend(x, Prepend(y, r)) == Prepend(x + y, r)
  {
    if r.Success? {
      assert x + (y + r.value) == (x + y) + r.value;
    }
  }

  /** Two pieces of input lex independently when no identifier can run across the seam. */
  predicate Seam(a: string, b: string)
  {
    a == [] || b == [] || !IsIdChar(a[|a| - 1]) || !IsIdChar(b[0])
  }

  lemma IdentLengthAppend(a: string, b: string)
    requires a != [] && IsWordChar(a[0]) && Seam(a, b)
    requires IdentLength(a) < |a| || b == [] || !IsIdChar(b[0])
    ensures IdentLength(a + b) == IdentLength(a)
  {
    IdRunAppend(a[1..], b);
    assert (a + b)[1..] == a[1..] + b;
  }

  lemma {:induction false} IdRunAppend(a: string, b: string)
    requires IdRun(a) < |a| || b == [] || !IsIdChar(b[0])
    ensures IdRun(a + b) == IdRun(a)
    decreases |a|
  {
    if a == [] {
    } else if IsIdChar(a[0]) {
      assert (a + b)[1..] == a[1..] + b;
      IdRunAppend(a[1..], b);
    }
  }

  lemma LexPunctStep(s: string)
    requires s != [] && PunctToken(s[0]).Some?
    ensures Lex(s) == Prepend([PunctToken(s[0]).value], Lex(s[1..]))
  {
  }

  lemma LexWordStep(s: string)
    requires s != [] && IsWordChar(s[0])
    ensures Lex(s) == Prepend([Id(s[..IdentLength(s)])], Lex(s[IdentLength(s)..]))
  {
  }

  /**
   * Lexing a concatenation across a seam where no identifier can continue
   * is lexing the two pieces one after the other.
   */
  lemma {:induction false} LexAppend(a: string, b: string)
    requires Lex(a).Success? && Seam(a, b)
    ensures Lex(a + b) == Prepend(Lex(a).value, Lex(b))
    decreases |a|
  {
    if a == [] {
      assert a + b == b;
      if Lex(b).Success? { assert [] + Lex(b).value == Lex(b).value; }
    } else {
      var s := a + b;
      assert s[0] == a[0];
      if PunctToken(a[0]).Some? {
        LexAppendPunct(a, b);
      } else if IsWordChar(a[0]) {
        LexAppendWord(a, b);
      } else {
        assert s[1..] == a[1..] + b;
        LexAppend(a[1..], b);
      }
    }
  }

  lemma {:induction false} LexAppendPunct(a: string, b: string)
    requires Lex(a).Success? && Seam(a, b) && a != [] && PunctToken(a[0]).Some?
    ensures Lex(a + b) == Prepend(Lex(a).value, Lex(b))
    decreases |a|, 0
  {
    var s := a + b;
    assert s[0] == a[0];
    assert s[1..] == a[1..] + b;
    LexPunctStep(a);
    LexPunctStep(s);
    assert Seam(a[1..], b) by {
      if a[1..] != [] { assert a[1..][|a[1..]| - 1] == a[|a| - 1]; }
    }
    LexAppend(a[1..], b);
    PrependAssociates([PunctToken(a[0]).value], Lex(a[1..]).value, Lex(b));
  }

  lemma {:induction false} LexAppendWord(a: string, b: string)
    requires Lex(a).Success? && Seam(a, b) && a != [] && IsWordChar(a[0])
    ensures Lex(a + b) == Prepend(Lex(a).value, Lex(b))
    decreases |a|, 0
  {
    var s := a + b;
    assert s[0] == a[0];
    var n := IdentLength(a);
    if n == |a| {
      assert a[|a| - 1] == a[..n][n - 1];
    }
    IdentLengthAppend(a, b);
    assert s[..n] == a[..n];
    assert s[n..] == a[n..] + b;
    assert Seam(a[n..], b) by {
      if a[n..] != [] { assert a[n..][|a[n..]| - 1] == a[|a| - 1]; }
    }
    LexWordStep(a);
    LexWordStep(s);
    LexAppend(a[n..], b);
    PrependAssociates([Id(a[..n])], Lex(a[n..]).value, Lex(b));
  }

  /** Leading whitespace is dropped. */
  lemma {:induction false} LexSkipsSpace(w: string, s: string)
    requires AllSpace(w)
    ensures Lex(w + s) == Lex(s)
    decreases |w|
  {
    if w != [] {
      assert (w + s)[0] == w[0];
      assert IsSpace(w[0]) && !IsWordChar(w[0]) && PunctToken(w[0]).None?;
      assert (w + s)[1..] == w[1..] + s;
      LexSkipsSpace(w[1..], s);
    } else {
      assert w + s == s;
    }
  }

  /** An identifier followed by a character that cannot continue it is one token. */
  lemma LexIdent(w: string, s: string)
    requires IsIdent(w) && (s == [] || !IsIdChar(s[0]))
    ensures Lex(w + s) == Prepend([Id(w)], Lex(s))
  {
    var t := w + s;
    assert t[0] == w[0];
    IdRunAppend(w[1..], s);
    assert IdRun(w[1..]) == |w| - 1;
    assert t[1..] == w[1..] + s;
    assert t[..|w|] == w && t[|w|..] == s;
  }

  /** How a token is written: its own character, `~` or `-` for Off, the text of an identifier. */
  function Spelling(t: Token, dash: bool): (w: string)
    ensures !t.Id? ==> |w| == 1 && PunctToken(w[0]) == Some(t)
    ensures !t.Id? && !(t == Off && dash) ==> !IsIdChar(w[0])
    ensures t.Id? ==> w == t.text
  {
    match t
    case Dep => "^"
    case At => "@"
    case Colon => ":"
    case Comma => ","
    case On => "+"
    case Off => if dash then "-" else "~"
    case Pct => "%"
    case Eq => "="
    case Id(x) => x
  }

  predicate IdentTokens(ts: seq<Token>)
  {
    forall i :: 0 <= i < |ts| && ts[i].Id? ==> IsIdent(ts[i].text)
  }

  /**
   * A way of writing `ts` out: `gaps[i]` is the whitespace before token `i`
   * and `dashes[i]` says whether an Off token is written `-`. An identifier
   * must be separated by whitespace from a following identifier or `-`.
   */
  predicate IsLayout(ts: seq<Token>, gaps: seq<string>, dashes: seq<bool>)
  {
    && |gaps| == |ts| && |dashes| == |ts|
    && (forall i :: 0 <= i < |ts| ==> AllSpace(gaps[i]))
    && (forall i :: 0 < i < |ts| && ts[i - 1].Id? && (ts[i].Id? || (ts[i] == Off && dashes[i])) ==> gaps[i] != [])
  }

  function Layout(ts: seq<Token>, gaps: seq<string>, dashes: seq<bool>): string
    requires |gaps| == |ts| && |dashes| == |ts|
  {
    if ts == [] then [] else gaps[0] + Spelling(ts[0], dashes[0]) + Layout(ts[1..], gaps[1..], dashes[1..])
  }

  lemma IsLayoutTail(ts: seq<Token>, gaps: seq<string>, dashes: seq<bool>)
    requires IsLayout(ts, gaps, dashes) && IdentTokens(ts) && ts != []
    ensures IsLayout(ts[1..], gaps[1..], dashes[1..]) && IdentTokens(ts[1..])
  {
    forall i | 0 < i < |ts| - 1 ensures ts[1..][i - 1] == ts[i] && ts[1..][i] == ts[i + 1] && gaps[1..][i] == gaps[i + 1] && dashes[1..][i] == dashes[i + 1] {
    }
    forall i | 0 <= i < |ts| - 1 ensures ts[1..][i] == ts[i + 1] && gaps[1..][i] == gaps[i + 1] {
    }
  }

  /** The first character of a layout: the first blank before the first token, or its first character. */
  lemma LayoutFirst(ts: seq<Token>, gaps: seq<string>, dashes: seq<bool>)
    requires IsLayout(ts, gaps, dashes) && IdentTokens(ts) && ts != []
    ensures Layout(ts, gaps, dashes) != []
    ensures gaps[0] != [] ==> IsSpace(Layout(ts, gaps, dashes)[0])
    ensures gaps[0] == [] ==> Layout(ts, gaps, dashes)[0] == Spelling(ts[0], dashes[0])[0]
  {
    var w := Spelling(ts[0], dashes[0]);
    assert w != [];
    var rest := Layout(ts[1..], gaps[1..], dashes[1..]);
    assert Layout(ts, gaps, dashes) == gaps[0] + w + rest;
    if gaps[0] != [] {
      assert (gaps[0] + w + rest)[0] == gaps[0][0];
    } else {
      assert (gaps[0] + w + rest)[0] == w[0];
    }
  }

  /** After an identifier token, a layout continues with a character that cannot extend it. */
  lemma LayoutSeamAfterIdent(ts: seq<Token>, gaps: seq<string>, dashes: seq<bool>)
    requires IsLayout(ts, gaps, dashes) && IdentTokens(ts) && ts != [] && ts[0].Id?
    ensures var rest := Layout(ts[1..], gaps[1..], dashes[1..]);
            rest == [] || !IsIdChar(rest[0])
  {
    if |ts| > 1 {
      IsLayoutTail(ts, gaps, dashes);
      LayoutFirst(ts[1..], gaps[1..], dashes[1..]);
      assert ts[1..][0] == ts[1] && gaps[1..][0] == gaps[1] && dashes[1..][0] == dashes[1];
    }
  }

  lemma LexPunctThen(w: string, rest: string)
    requires |w| == 1 && PunctToken(w[0]).Some?
    ensures Lex(w + rest) == Prepend([PunctToken(w[0]).value], Lex(rest))
  {
    assert (w + rest)[0] == w[0] && (w + rest)[1..] == rest;
    LexPunctStep(w + rest);
  }

  /** Every layout of a token sequence lexes back to that sequence. */
  lemma {:induction false} LexLayout(ts: seq<Token>, gaps: seq<string>, dashes: seq<bool>)
    requires IsLayout(ts, gaps, dashes) && IdentTokens(ts)
    ensures Lex(Layout(ts, gaps, dashes)) == Success(ts)
    decreases |ts|
  {
    if ts != [] {
      var w := Spelling(ts[0], dashes[0]);
      var rest := Layout(ts[1..], gaps[1..], dashes[1..]);
      IsLayoutTail(ts, gaps, dashes);
      LexLayout(ts[1..], gaps[1..], dashes[1..]);
      assert Layout(ts, gaps, dashes) == gaps[0] + (w + rest);
      LexSkipsSpace(gaps[0], w + rest);
      if ts[0].Id? {
        LayoutSeamAfterIdent(ts, gaps, dashes);
        LexIdent(w, rest);
      } else {
        LexPunctThen(w, rest);
      }
      assert [ts[0]] + ts[1..] == ts;
    }
  }

  /** No blank anywhere except the one needed between two adjacent identifiers. */
  function MinimalGaps(ts: seq<Token>): (gaps: seq<string>)
    ensures |gaps| == |ts|
  {
    seq(|ts|, i requires 0 <= i < |ts| => if 0 < i && ts[i - 1].Id? && ts[i].Id? then " " else "")
  }

  /** The canonical text of a token sequence: `~` for Off, blanks only between adjacent identifiers. */
  function Spell(ts: seq<Token>): string
  {
    Layout(ts, MinimalGaps(ts), seq(|ts|, i => false))
  }

  /** The canonical text of a token sequence lexes back to it. */
  lemma LexSpell(ts: seq<Token>)
    requires IdentTokens(ts)
    ensures Lex(Spell(ts)) == Success(ts)
  {
    LexLayout(ts, MinimalGaps(ts), seq(|ts|, i => false));
  }

  lemma {:induction false} IdRunAtLeast(s: string, k: nat)
    requires k <= |s| && forall i :: 0 <= i < k ==> IsIdChar(s[i])
    ensures IdRun(s) >= k
    decreases k
  {
    if k > 0 {
      assert forall i :: 0 <= i < k - 1 ==> s[1..][i] == s[i + 1];
      IdRunAtLeast(s[1..], k - 1);
    }
  }

  /** Both `-` and `~` at the start of the input are the variant-off marker. */
  lemma LexOff(c: char, q: string)
    requires c == '-' || c == '~'
    ensures Lex([c] + q) == Prepend([Off], Lex(q))
  {
    var s := [c] + q;
    assert PunctToken(c) == Some(Off);
    assert s[0] == c && s[1..] == q;
    LexPunctStep(s);
  }

  /**
   * A blank before `-` makes it a variant-off marker, exactly as `~` is
   * (whatever comes before and after).
   */
  lemma LexSpacedDash(p: string, q: string)
    requires Lex(p).Success?
    ensures Lex(p + " -" + q) == Lex(p + "~" + q)
  {
    var dash := [' '] + ([ '-' ] + q);
    var tilde := ['~'] + q;
    assert p + " -" + q == p + dash;
    assert p + "~" + q == p + tilde;
    LexAppend(p, dash);
    LexAppend(p, tilde);
    LexSkipsSpace([' '], ['-'] + q);
    LexOff('-', q);
    LexOff('~', q);
  }

  /** An identifier followed directly by `-` scans as a longer identifier. */
  lemma LexGluedFirst(w: string, q: string)
    requires IsIdent(w) && Lex(w + "-" + q).Success?
    ensures var ts := Lex(w + "-" + q).value;
            ts != [] && ts[0].Id? && |ts[0].text| > |w|
  {
    var glued := w + "-" + q;
    assert glued[0] == w[0];
    LexWordStep(glued);
    assert forall i :: 0 <= i < |w| ==> glued[1..][i] == (w + "-")[i + 1];
    IdRunAtLeast(glued[1..], |w|);
  }

  /**
   * A `-` glued to an identifier is not a variant-off marker: the scan of
   * `w-q` differs from the scan of `w~q` when the latter succeeds.
   */
  lemma LexGluedDash(p: string, w: string, q: string)
    requires Lex(p).Success? && Seam(p, w) && IsIdent(w)
    requires Lex(p + w + "~" + q).Success?
    ensures Lex(p + w + "-" + q) != Lex(p + w + "~" + q)
  {
    var k := |Lex(p).value|;
    assert p + w + "~" + q == p + (w + ("~" + q));
    LexAppend(p, w + ("~" + q));
    LexIdent(w, "~" + q);
    assert Lex(p + w + "~" + q).value[k] == Id(w);
    LexGluedAfter(p, w, q);
  }

  lemma LexGluedAfter(p: string, w: string, q: string)
    requires Lex(p).Success? && Seam(p, w) && IsIdent(w)
    ensures var r := Lex(p + w + "-" + q);
            r.Success? ==> |r.value| > |Lex(p).value| && r.value[|Lex(p).value|] != Id(w)
  {
    var glued := w + "-" + q;
    assert p + w + "-" + q == p + glued;
    assert glued[0] == w[0];
    LexAppend(p, glued);
    if Lex(glued).Success? {
      LexGluedFirst(w, q);
    }
  }
}
