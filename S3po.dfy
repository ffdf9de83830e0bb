/** S3PO, the Slack protocol helpers: Slack's text escaping, decoding of
    Slack markup to plain text, symbol stripping, command escaping, and the
    normalisation of Ruby values to JSON form. */
module S3po {
  import opened Values
  import opened RubyCore
  import Foreign

  // ---------------------------------------------------------------------------
  // gsub with the patterns the source uses
  // ---------------------------------------------------------------------------

  /** The patterns `escape_text` and `decode_text` pass to `gsub!`. */
  datatype Rule =
    | Literal(pat: string, rep: string) // a literal string pattern
    | KeepLabel                         // /<([#@]*)[^>|]*\|([^>]*)>/ -> '<\1\2>'
    | Broadcast                         // /<!(everyone|channel|here)>/ -> '<@\1>'
    | BangCommand                       // /<!(.*?)>/ -> '<\1>'
    | Bracket                           // /<(.*?)>/ -> '\1'

  predicate ValidRule(r: Rule) {
    r.Literal? ==> r.pat != []
  }

  /** The character every match of `r` starts with. */
  function Lead(r: Rule): char
    requires ValidRule(r)
  {
    if r.Literal? then r.pat[0] else '<'
  }

  predicate NotGt(c: char) { c != '>' }
  predicate NotGtBar(c: char) { c != '>' && c != '|' }
  // `.` in a Ruby regular expression matches anything but a newline.
  predicate NotGtNl(c: char) { c != '>' && c != '\n' }
  predicate IsSigil(c: char) { c == '#' || c == '@' }

  /** Whether `r` matches at the start of `s`, and if so the length of the
      match and its replacement text. */
  function Match(r: Rule, s: string): (m: Option<(nat, string)>)
    requires ValidRule(r)
    ensures m.Some? ==> 0 < m.value.0 <= |s| && s[0] == Lead(r)
  {
    match r
    case Literal(pat, rep) => if pat <= s then Some((|pat|, rep)) else None
    case KeepLabel => MatchLabel(s)
    case Broadcast => MatchBroadcast(s)
    case BangCommand => MatchBang(s)
    case Bracket => MatchBracket(s)
  }

  /** `<([#@]*)[^>|]*\|([^>]*)>`: the sigils, then everything after the first `|`. */
  function MatchLabel(s: string): (m: Option<(nat, string)>)
    ensures m.Some? ==> 0 < m.value.0 <= |s| && s[0] == '<'
  {
    if s == [] || s[0] != '<' then None
    else
      var j := 1 + Span(s[1..], NotGtBar);
      if j >= |s| || s[j] != '|' then None
      else
        var k := j + 1 + Span(s[j + 1..], NotGt);
        if k >= |s| then None
        else
          var g := Span(s[1..j], IsSigil);
          Some((k + 1, "<" + s[1..1 + g] + s[j + 1..k] + ">"))
  }

  /** `<!(everyone|channel|here)>`, replaced by `<@\1>`. */
  function MatchBroadcast(s: string): (m: Option<(nat, string)>)
    ensures m.Some? ==> 0 < m.value.0 <= |s| && s[0] == '<'
  {
    if "<!everyone>" <= s then Some((11, "<@everyone>"))
    else if "<!channel>" <= s then Some((10, "<@channel>"))
    else if "<!here>" <= s then Some((7, "<@here>"))
    else None
  }

  /** `<!(.*?)>`, replaced by `<\1>`. */
  function MatchBang(s: string): (m: Option<(nat, string)>)
    ensures m.Some? ==> 0 < m.value.0 <= |s| && s[0] == '<'
  {
    if |s| < 2 || s[0] != '<' || s[1] != '!' then None
    else
      var k := 2 + Span(s[2..], NotGtNl);
      if k < |s| && s[k] == '>' then Some((k + 1, "<" + s[2..k] + ">")) else None
  }

  /** `<(.*?)>`, replaced by `\1`. */
  function MatchBracket(s: string): (m: Option<(nat, string)>)
    ensures m.Some? ==> 0 < m.value.0 <= |s| && s[0] == '<'
  {
    if s == [] || s[0] != '<' then None
    else
      var k := 1 + Span(s[1..], NotGtNl);
      if k < |s| && s[k] == '>' then Some((k + 1, s[1..k])) else None
  }

  /** `s.gsub(r)`: scan left to right, replacing each match and resuming after it. */
  function Gsub(s: string, r: Rule): string
    requires ValidRule(r)
    decreases |s|
  {
    if s == [] then []
    else
      match Match(r, s)
      case Some((n, rep)) => rep + Gsub(s[n..], r)
      case None => [s[0]] + Gsub(s[1..], r)
  }

  /** Text in which no match of `r` can start passes through unchanged. */
  lemma {:induction false} GsubCopies(x: string, y: string, r: Rule)
    requires ValidRule(r)
    requires forall i :: 0 <= i < |x| ==> x[i] != Lead(r)
    ensures Gsub(x + y, r) == x + Gsub(y, r)
    decreases |x|
  {
    if x == [] {
      assert x + y == y;
    } else {
      var s := x + y;
      assert s[0] == x[0] && s[1..] == x[1..] + y;
      GsubSkip(s, r);
      GsubCopies(x[1..], y, r);
      ConsAssoc(x, Gsub(y, r));
    }
  }

  /** `[x[0]] + (x[1..] + t) == x + t`. */
  lemma ConsAssoc(x: string, t: string)
    requires x != []
    ensures [x[0]] + (x[1..] + t) == x + t
  {
    assert [x[0]] + x[1..] == x;
  }

  lemma GsubUnchanged(x: string, r: Rule)
    requires ValidRule(r)
    requires forall i :: 0 <= i < |x| ==> x[i] != Lead(r)
    ensures Gsub(x, r) == x
  {
    GsubCopies(x, [], r);
    assert x + [] == x;
  }

  /** A literal pattern at the head of the text is replaced. */
  lemma TokenHit(y: string, r: Rule)
    requires r.Literal? && r.pat != []
    ensures Gsub(r.pat + y, r) == r.rep + Gsub(y, r)
  {
    assert r.pat <= r.pat + y;
    assert (r.pat + y)[|r.pat|..] == y;
  }

  /** A token that shares only its first character with a literal pattern is copied. */
  lemma TokenMiss(x: string, y: string, r: Rule)
    requires r.Literal? && |r.pat| >= 2 && |x| >= 2
    requires x[0] == r.pat[0] && x[1] != r.pat[1]
    requires forall i :: 1 <= i < |x| ==> x[i] != r.pat[0]
    ensures Gsub(x + y, r) == x + Gsub(y, r)
  {
    var s := x + y;
    assert s[1] == x[1];
    assert !(r.pat <= s);
    assert s[1..] == x[1..] + y;
    GsubCopies(x[1..], y, r);
    assert [x[0]] + x[1..] == x;
  }

  /** For a one-character pattern, gsub works character by character. */
  lemma {:induction false} GsubCharAppend(a: string, b: string, r: Rule)
    requires r.Literal? && |r.pat| == 1
    ensures Gsub(a + b, r) == Gsub(a, r) + Gsub(b, r)
    decreases |a|
  {
    if a != [] {
      var s := a + b;
      assert s[0] == a[0];
      assert s[1..] == a[1..] + b;
      assert r.pat <= s <==> s[0] == r.pat[0];
      assert r.pat <= a <==> a[0] == r.pat[0];
      var head := if a[0] == r.pat[0] then r.rep else [a[0]];
      assert Gsub(s, r) == head + Gsub(a[1..] + b, r);
      assert Gsub(a, r) == head + Gsub(a[1..], r);
      GsubCharAppend(a[1..], b, r);
    } else {
      assert a + b == b;
    }
  }

  // ---------------------------------------------------------------------------
  // escape_text and decode_text
  // ---------------------------------------------------------------------------

  const AmpRule := Literal("&", "&amp;")
  const LtRule := Literal("<", "&lt;")
  const GtRule := Literal(">", "&gt;")
  const UnGtRule := Literal("&gt;", ">")
  const UnLtRule := Literal("&lt;", "<")
  const UnAmpRule := Literal("&amp;", "&")

  /** `escape_text`: replace `&`, then `<`, then `>` by their entities. */
  function EscapeText(text: string): (r: string)
    ensures forall i :: 0 <= i < |r| ==> r[i] != '<' && r[i] != '>'
    ensures forall i :: 0 <= i < |r| && r[i] == '&' ==> StartsEntity(r[i..])
  {
    var r := Gsub(Gsub(Gsub(text, AmpRule), LtRule), GtRule);
    EscapeIsEscaped(text);
    EscapedHasNoBrackets(text);
    EscapedEntities(text);
    r
  }

  /** `decode_text`: keep labels, turn broadcasts into mentions, drop the
      remaining brackets, then unescape `&gt;`, `&lt;` and `&amp;`. */
  function DecodeText(text: string): (r: string)
    // Text with no bracket and no entity is its own decoding.
    ensures (forall i :: 0 <= i < |text| ==> text[i] != '<' && text[i] != '&') ==> r == text
  {
    var p1 := Gsub(text, KeepLabel);
    var p2 := Gsub(p1, Broadcast);
    var p3 := Gsub(p2, BangCommand);
    var p4 := Gsub(p3, Bracket);
    var p5 := Gsub(p4, UnGtRule);
    var p6 := Gsub(p5, UnLtRule);
    GsubPlain(text, KeepLabel);
    GsubPlain(p1, Broadcast);
    GsubPlain(p2, BangCommand);
    GsubPlain(p3, Bracket);
    GsubPlain(p4, UnGtRule);
    GsubPlain(p5, UnLtRule);
    GsubPlain(p6, UnAmpRule);
    Gsub(p6, UnAmpRule)
  }

  lemma GsubPlain(x: string, r: Rule)
    requires ValidRule(r)
    ensures (forall i :: 0 <= i < |x| ==> x[i] != Lead(r)) ==> Gsub(x, r) == x
  {
    if forall i :: 0 <= i < |x| ==> x[i] != Lead(r) {
      GsubUnchanged(x, r);
    }
  }

  predicate StartsEntity(t: string) {
    "&amp;" <= t || "&lt;" <= t || "&gt;" <= t
  }

  /** The text each character stands for once escaped: the reference definition. */
  function EscChar(c: char): string {
    if c == '&' then "&amp;" else if c == '<' then "&lt;" else if c == '>' then "&gt;" else [c]
  }

  function FlatMap(s: string, f: char -> string): string {
    if s == [] then [] else f(s[0]) + FlatMap(s[1..], f)
  }

  /** A one-character pattern on a one-character text. */
  lemma GsubOne(c: char, r: Rule)
    requires r.Literal? && |r.pat| == 1
    ensures Gsub([c], r) == if c == r.pat[0] then r.rep else [c]
  {
    assert [c][1..] == [];
    assert r.pat <= [c] <==> c == r.pat[0];
    if c == r.pat[0] {
      assert r.pat == [c];
    }
  }

  lemma EscapeOne(c: char)
    ensures Gsub(Gsub(Gsub([c], AmpRule), LtRule), GtRule) == EscChar(c)
  {
    GsubOne(c, AmpRule);
    if c == '&' {
      GsubUnchanged("&amp;", LtRule);
      GsubUnchanged("&amp;", GtRule);
    } else {
      GsubOne(c, LtRule);
      if c == '<' {
        GsubUnchanged("&lt;", GtRule);
      } else {
        GsubOne(c, GtRule);
      }
    }
  }

  /** The three successive gsubs escape character by character. */
  lemma {:induction false} EscapeIsEscaped(s: string)
    ensures Gsub(Gsub(Gsub(s, AmpRule), LtRule), GtRule) == FlatMap(s, EscChar)
  {
    if s != [] {
      var c, rest := s[0], s[1..];
      assert s == [c] + rest;
      GsubCharAppend([c], rest, AmpRule);
      GsubCharAppend(Gsub([c], AmpRule), Gsub(rest, AmpRule), LtRule);
      GsubCharAppend(Gsub(Gsub([c], AmpRule), LtRule), Gsub(Gsub(rest, AmpRule), LtRule), GtRule);
      EscapeOne(c);
      EscapeIsEscaped(rest);
    }
  }

  lemma {:induction false} EscapedHasNoBrackets(s: string)
    ensures forall i :: 0 <= i < |FlatMap(s, EscChar)| ==>
      FlatMap(s, EscChar)[i] != '<' && FlatMap(s, EscChar)[i] != '>'
  {
    if s != [] {
      EscapedHasNoBrackets(s[1..]);
      var t, rest := EscChar(s[0]), FlatMap(s[1..], EscChar);
      assert forall i :: |t| <= i < |t + rest| ==> (t + rest)[i] == rest[i - |t|];
    }
  }

  lemma {:induction false} EscapedEntities(s: string)
    ensures forall i :: 0 <= i < |FlatMap(s, EscChar)| && FlatMap(s, EscChar)[i] == '&' ==>
      StartsEntity(FlatMap(s, EscChar)[i..])
  {
    if s != [] {
      EscapedEntities(s[1..]);
      var t, rest := EscChar(s[0]), FlatMap(s[1..], EscChar);
      var e := t + rest;
      forall i | 0 <= i < |e| && e[i] == '&' ensures StartsEntity(e[i..]) {
        if i < |t| {
          assert t[i] == '&';
          assert i == 0;
          assert t <= e;
        } else {
          assert e[i] == rest[i - |t|];
          assert e[i..] == rest[i - |t|..];
        }
      }
    }
  }

  lemma {:induction false} EscapedHasNoAngle(s: string)
    ensures forall i :: 0 <= i < |FlatMap(s, EscChar)| ==> FlatMap(s, EscChar)[i] != '<'
  {
    EscapedHasNoBrackets(s);
  }

  function AfterUnGt(c: char): string {
    if c == '&' then "&amp;" else if c == '<' then "&lt;" else [c]
  }

  function AfterUnLt(c: char): string {
    if c == '&' then "&amp;" else [c]
  }

  lemma {:induction false} UnescapeGt(s: string)
    ensures Gsub(FlatMap(s, EscChar), UnGtRule) == FlatMap(s, AfterUnGt)
  {
    if s != [] {
      var c, rest := s[0], FlatMap(s[1..], EscChar);
      if c == '&' {
        TokenMiss("&amp;", rest, UnGtRule);
      } else if c == '<' {
        TokenMiss("&lt;", rest, UnGtRule);
      } else if c == '>' {
        TokenHit(rest, UnGtRule);
      } else {
        GsubCopies([c], rest, UnGtRule);
      }
      UnescapeGt(s[1..]);
    }
  }

  lemma {:induction false} UnescapeLt(s: string)
    ensures Gsub(FlatMap(s, AfterUnGt), UnLtRule) == FlatMap(s, AfterUnLt)
  {
    if s != [] {
      var c, rest := s[0], FlatMap(s[1..], AfterUnGt);
      if c == '&' {
        TokenMiss("&amp;", rest, UnLtRule);
      } else if c == '<' {
        TokenHit(rest, UnLtRule);
      } else {
        GsubCopies([c], rest, UnLtRule);
      }
      UnescapeLt(s[1..]);
    }
  }

  lemma {:induction false} UnescapeAmp(s: string)
    ensures Gsub(FlatMap(s, AfterUnLt), UnAmpRule) == s
  {
    if s != [] {
      var c, rest := s[0], FlatMap(s[1..], AfterUnLt);
      if c == '&' {
        TokenHit(rest, UnAmpRule);
      } else {
        GsubCopies([c], rest, UnAmpRule);
      }
      UnescapeAmp(s[1..]);
      assert s == [c] + s[1..];
    }
  }

  /** `decode_text` undoes `escape_text`: escaped text has no `<`, so the four
      bracket rewrites leave it alone, and the three unescapes undo the three
      escapes. */
  lemma DecodeEscape(s: string)
    ensures DecodeText(EscapeText(s)) == s
  {
    var e := FlatMap(s, EscChar);
    EscapeIsEscaped(s);
    EscapedHasNoAngle(s);
    GsubUnchanged(e, KeepLabel);
    GsubUnchanged(e, Broadcast);
    GsubUnchanged(e, BangCommand);
    GsubUnchanged(e, Bracket);
    UnescapeGt(s);
    UnescapeLt(s);
    UnescapeAmp(s);
  }

  // ---------------------------------------------------------------------------
  // decode_text on Slack's bracket markup
  // ---------------------------------------------------------------------------

  /** No character of `t` can start a bracket, an entity, or end a bracket early. */
  predicate Inert(t: string) {
    forall i :: 0 <= i < |t| ==> t[i] != '<' && t[i] != '>' && t[i] != '&' && t[i] != '\n'
  }

  /** A match that covers the head `x` is replaced, and the scan resumes after it. */
  lemma GsubHead(x: string, y: string, r: Rule, rep: string)
    requires ValidRule(r) && x != []
    requires Match(r, x + y) == Some((|x|, rep))
    ensures Gsub(x + y, r) == rep + Gsub(y, r)
  {
    assert (x + y)[|x|..] == y;
  }

  /** Where no match starts at the head, its first character is copied. */
  lemma GsubSkip(s: string, r: Rule)
    requires ValidRule(r) && s != []
    requires Match(r, s).None?
    ensures Gsub(s, r) == [s[0]] + Gsub(s[1..], r)
  {
  }

  /** A text that is one bracket `<t>`, `t` without `<`, and not matched by
      `r` at its head, passes `r` unchanged. */
  lemma BracketUnmatched(t: string, r: Rule)
    requires ValidRule(r) && Lead(r) == '<'
    requires forall i :: 0 <= i < |t| ==> t[i] != '<'
    requires Match(r, "<" + t + ">").None?
    ensures Gsub("<" + t + ">", r) == "<" + t + ">"
  {
    var s := "<" + t + ">";
    GsubSkip(s, r);
    assert s[1..] == t + ">";
    GsubUnchanged(t + ">", r);
  }

  /** The last three rewrites of `decode_text` leave text without `&` alone. */
  lemma UnescapesInert(t: string)
    requires Inert(t)
    ensures Gsub(Gsub(Gsub(t, UnGtRule), UnLtRule), UnAmpRule) == t
  {
    GsubUnchanged(t, UnGtRule);
    GsubUnchanged(t, UnLtRule);
    GsubUnchanged(t, UnAmpRule);
  }

  /** The final bracket rule strips one `<t>` down to `t`. */
  lemma BracketStrips(t: string)
    requires Inert(t)
    ensures Gsub("<" + t + ">", Bracket) == t
  {
    var s := "<" + t + ">";
    assert s[1..] == t + ">";
    SpanExact(s[1..], NotGtNl, |t|);
    assert s[1 + |t|] == '>';
    assert s[1..1 + |t|] == t;
    assert s + [] == s;
    GsubHead(s, [], Bracket, t);
  }

  /** Without a `|` the label rule does not match a bracket. */
  lemma NoLabel(t: string)
    requires forall i :: 0 <= i < |t| ==> t[i] != '>' && t[i] != '|'
    ensures Match(KeepLabel, "<" + t + ">").None?
  {
    var s := "<" + t + ">";
    assert s[1..] == t + ">";
    SpanExact(s[1..], NotGtBar, |t|);
    assert s[1 + |t|] == '>';
  }

  /** A bracket whose content does not start with `!` is neither a
      broadcast nor a `<!…>` command. */
  lemma NoBang(t: string)
    requires t == [] || t[0] != '!'
    ensures Match(Broadcast, "<" + t + ">").None? && Match(BangCommand, "<" + t + ">").None?
  {
    var s := "<" + t + ">";
    assert s[1] != '!';
    assert "<!everyone>"[1] == '!' && "<!channel>"[1] == '!' && "<!here>"[1] == '!';
  }

  /** In `<!x>` with no `>` in `x`, a broadcast pattern `<!w>` can only match
      when `x` is `w`. */
  lemma BangWord(w: string, x: string)
    requires forall i :: 0 <= i < |x| ==> x[i] != '>'
    ensures ("<!" + w + ">" <= "<!" + x + ">") ==> x == w
  {
    var a, b := "<!" + w + ">", "<!" + x + ">";
    if a <= b {
      assert b[|a| - 1] == '>';
      assert forall i :: 2 <= i < |b| - 1 ==> b[i] == x[i - 2];
      assert |a| == |b|;
      assert x == b[2..|b| - 1] == a[2..|a| - 1] == w;
    }
  }

  /** The label rule on `<m|label>`: the sigils of `m`, then the label. */
  lemma LabelMatch(m: string, caption: string)
    requires forall i :: 0 <= i < |m| ==> m[i] != '>' && m[i] != '|'
    requires forall i :: 0 <= i < |caption| ==> caption[i] != '>'
    ensures var s := "<" + m + "|" + caption + ">";
      MatchLabel(s) == Some((|s|, "<" + m[..Span(m, IsSigil)] + caption + ">"))
  {
    var s := "<" + m + "|" + caption + ">";
    LabelParts(m, caption);
    LabelSpans(s, m, caption);
    LabelMatchIn(s, m, caption);
  }

  /** The two spans the label rule measures in `<m|label>`. */
  lemma LabelSpans(s: string, m: string, caption: string)
    requires forall i :: 0 <= i < |m| ==> m[i] != '>' && m[i] != '|'
    requires forall i :: 0 <= i < |caption| ==> caption[i] != '>'
    requires |s| == |m| + |caption| + 3 && s[1 + |m|] == '|' && s[|s| - 1] == '>'
    requires s[1..1 + |m|] == m && s[2 + |m|..|s| - 1] == caption
    ensures Span(s[1..], NotGtBar) == |m| && Span(s[2 + |m|..], NotGt) == |caption|
  {
    SpanUpTo(s[1..], m, '|', NotGtBar);
    SpanUpTo(s[2 + |m|..], caption, '>', NotGt);
  }

  /** `LabelMatch` for a text known only by the positions of its pieces. */
  lemma LabelMatchIn(s: string, m: string, caption: string)
    requires |s| == |m| + |caption| + 3 && s[0] == '<' && s[1 + |m|] == '|'
    requires s[1..1 + |m|] == m && s[2 + |m|..|s| - 1] == caption
    requires Span(s[1..], NotGtBar) == |m| && Span(s[2 + |m|..], NotGt) == |caption|
    ensures MatchLabel(s) == Some((|s|, "<" + m[..Span(m, IsSigil)] + caption + ">"))
  {
    var j := 1 + |m|;
    var g := Span(m, IsSigil);
    MatchLabelAt(s, j, |s| - 1, g);
    SliceOfSlice(s, 1, j, g);
  }

  /** A prefix `w` whose characters satisfy `p`, followed by a character `c`
      that does not, is the span of `p`. */
  lemma SpanUpTo(t: string, w: string, c: char, p: char -> bool)
    requires |w| < |t| && t[..|w|] == w && t[|w|] == c && !p(c)
    requires forall i :: 0 <= i < |w| ==> p(w[i])
    ensures Span(t, p) == |w|
  {
    assert forall i :: 0 <= i < |w| ==> t[i] == w[i];
    SpanExact(t, p, |w|);
  }

  /** `MatchLabel` where the `|` and the closing `>` are known. */
  lemma MatchLabelAt(s: string, j: nat, k: nat, g: nat)
    requires 0 < j < k < |s| && s[0] == '<' && s[j] == '|'
    requires Span(s[1..], NotGtBar) == j - 1 && Span(s[j + 1..], NotGt) == k - j - 1
    requires g == Span(s[1..j], IsSigil)
    ensures MatchLabel(s) == Some((k + 1, "<" + s[1..1 + g] + s[j + 1..k] + ">"))
  {
  }

  lemma SliceOfSlice(s: string, a: nat, b: nat, n: nat)
    requires a <= b <= |s| && n <= b - a
    ensures s[a..a + n] == s[a..b][..n]
  {
  }

  /** The pieces of `<m|label>` by position. */
  lemma LabelParts(m: string, caption: string)
    ensures var s := "<" + m + "|" + caption + ">";
      |s| == |m| + |caption| + 3 && s[0] == '<' && s[1 + |m|] == '|' && s[|s| - 1] == '>' &&
      s[1..1 + |m|] == m && s[2 + |m|..|s| - 1] == caption
  {
  }

  /** `decode_text` as its four bracket stages, when the last leaves text
      without `&`. */
  lemma DecodeStages(s: string, p1: string, p2: string, p3: string, p4: string)
    requires Gsub(s, KeepLabel) == p1 && Gsub(p1, Broadcast) == p2
    requires Gsub(p2, BangCommand) == p3 && Gsub(p3, Bracket) == p4
    requires Inert(p4)
    ensures DecodeText(s) == p4
  {
    UnescapesInert(p4);
  }

  /** The label rule rewrites `<m|label>` in one step. */
  lemma LabelStage(m: string, caption: string)
    requires forall i :: 0 <= i < |m| ==> m[i] != '>' && m[i] != '|'
    requires forall i :: 0 <= i < |caption| ==> caption[i] != '>'
    ensures Gsub("<" + m + "|" + caption + ">", KeepLabel) == "<" + (m[..Span(m, IsSigil)] + caption) + ">"
  {
    var s := "<" + m + "|" + caption + ">";
    var rep := "<" + (m[..Span(m, IsSigil)] + caption) + ">";
    LabelMatch(m, caption);
    Regroup("<", m[..Span(m, IsSigil)], caption, ">");
    Regroup("<", m, "|" + caption, ">");
    assert s + [] == s;
    GsubHead(s, [], KeepLabel, rep);
  }

  lemma Regroup(a: string, b: string, c: string, d: string)
    ensures a + b + c + d == a + (b + c) + d
  {
  }

  /** Sigils followed by inert text are inert. */
  lemma SigilsThenInert(g: string, caption: string)
    requires forall i :: 0 <= i < |g| ==> IsSigil(g[i])
    requires Inert(caption)
    ensures Inert(g + caption)
    ensures g != [] ==> (g + caption)[0] != '!'
    ensures g == [] ==> g + caption == caption
  {
    var t := g + caption;
    assert forall i :: |g| <= i < |t| ==> t[i] == caption[i - |g|];
  }

  /** `<m|label>` keeps only the label, after the leading `#`/`@` sigils of
      `m`: `<@U1|bob>` decodes to `@bob`. */
  lemma DecodeLabel(m: string, caption: string)
    requires forall i :: 0 <= i < |m| ==> m[i] != '>' && m[i] != '|'
    requires Inert(caption)
    requires Span(m, IsSigil) > 0 || caption == [] || caption[0] != '!'
    ensures DecodeText("<" + m + "|" + caption + ">") == m[..Span(m, IsSigil)] + caption
  {
    var g := m[..Span(m, IsSigil)];
    var t := g + caption;
    SpanRun(m, IsSigil);
    SigilsThenInert(g, caption);
    LabelStage(m, caption);
    PlainBracketStages(t);
    DecodeStages("<" + m + "|" + caption + ">", "<" + t + ">", "<" + t + ">", "<" + t + ">", t);
  }

  /** Stages two to four of `decode_text` on a bracket `<t>` that is not a
      command: the first two leave it, the last strips it. */
  lemma PlainBracketStages(t: string)
    requires Inert(t) && (t == [] || t[0] != '!')
    ensures Gsub("<" + t + ">", Broadcast) == "<" + t + ">"
    ensures Gsub("<" + t + ">", BangCommand) == "<" + t + ">"
    ensures Gsub("<" + t + ">", Bracket) == t
  {
    NoBang(t);
    BracketUnmatched(t, Broadcast);
    BracketUnmatched(t, BangCommand);
    BracketStrips(t);
  }

  /** The three broadcast words and the mentions they become. */
  lemma BroadcastWord(w: string)
    requires w == "here" || w == "channel" || w == "everyone"
    ensures Inert("!" + w) && Inert("@" + w)
    ensures forall i :: 0 <= i < |"!" + w| ==> ("!" + w)[i] != '|'
    ensures MatchBroadcast("<!" + w + ">") == Some((|w| + 3, "<@" + w + ">"))
  {
    assert Inert(w) && forall i :: 0 <= i < |w| ==> w[i] != '|';
    SigilInert('!', w);
    SigilInert('@', w);
    BroadcastMatch(w);
  }

  lemma SigilInert(c: char, w: string)
    requires c != '<' && c != '>' && c != '&' && c != '\n' && c != '|'
    requires Inert(w) && forall i :: 0 <= i < |w| ==> w[i] != '|'
    ensures Inert([c] + w) && forall i :: 0 <= i < |[c] + w| ==> ([c] + w)[i] != '|'
  {
    assert forall i :: 1 <= i < |[c] + w| ==> ([c] + w)[i] == w[i - 1];
  }

  lemma BroadcastMatch(w: string)
    requires w == "here" || w == "channel" || w == "everyone"
    ensures MatchBroadcast("<!" + w + ">") == Some((|w| + 3, "<@" + w + ">"))
  {
    if w == "here" {
      assert "<!" + w + ">" == "<!here>" && "<@" + w + ">" == "<@here>";
      assert "<!everyone>"[2] != "<!here>"[2];
      assert "<!channel>"[2] != "<!here>"[2];
    } else if w == "channel" {
      assert "<!" + w + ">" == "<!channel>" && "<@" + w + ">" == "<@channel>";
      assert "<!everyone>"[2] != "<!channel>"[2];
    } else {
      assert "<!" + w + ">" == "<!everyone>" && "<@" + w + ">" == "<@everyone>";
    }
  }

  /** `<!here>`, `<!channel>` and `<!everyone>` become `@here`, `@channel`
      and `@everyone`. */
  lemma DecodeBroadcast(w: string)
    requires w == "here" || w == "channel" || w == "everyone"
    ensures DecodeText("<!" + w + ">") == "@" + w
  {
    BroadcastWord(w);
    var t, u := "!" + w, "@" + w;
    var s := "<" + t + ">";
    var p2 := "<" + u + ">";
    Wrap2("<!", w, ">");
    Wrap2("<@", w, ">");
    LabelSkip(t);
    assert s + [] == s;
    GsubHead(s, [], Broadcast, p2);
    NoBang(u);
    BracketUnmatched(u, BangCommand);
    BracketStrips(u);
    DecodeStages(s, s, p2, p2, u);
  }

  /** `[a, b] + w + c` regrouped as `[a] + ([b] + w) + c`. */
  lemma Wrap2(ab: string, w: string, c: string)
    requires |ab| == 2
    ensures ab + w + c == [ab[0]] + ([ab[1]] + w) + c
  {
    assert ab == [ab[0]] + [ab[1]];
  }

  /** A bracket without `|` passes the label rule. */
  lemma LabelSkip(t: string)
    requires forall i :: 0 <= i < |t| ==> t[i] != '>' && t[i] != '|' && t[i] != '<'
    ensures Gsub("<" + t + ">", KeepLabel) == "<" + t + ">"
  {
    NoLabel(t);
    BracketUnmatched(t, KeepLabel);
  }

  lemma BangNotBroadcast(x: string)
    requires forall i :: 0 <= i < |x| ==> x[i] != '>'
    requires x != "here" && x != "channel" && x != "everyone"
    ensures MatchBroadcast("<" + ("!" + x) + ">").None?
  {
    assert "<" + ("!" + x) + ">" == "<!" + x + ">";
    BangWord("everyone", x);
    BangWord("channel", x);
    BangWord("here", x);
  }

  /** The `<!…>` rule rewrites `<!x>` to `<x>` in one step. */
  lemma BangStage(x: string)
    requires Inert(x)
    ensures Gsub("<" + ("!" + x) + ">", BangCommand) == "<" + x + ">"
  {
    var s := "<" + ("!" + x) + ">";
    assert s[2..] == x + ">";
    SpanExact(s[2..], NotGtNl, |x|);
    assert s[2 + |x|] == '>';
    assert s[2..2 + |x|] == x;
    assert s + [] == s;
    GsubHead(s, [], BangCommand, "<" + x + ">");
  }

  /** Any other `<!x>` decodes to `x`. */
  lemma DecodeBang(x: string)
    requires Inert(x) && forall i :: 0 <= i < |x| ==> x[i] != '|'
    requires x != "here" && x != "channel" && x != "everyone"
    ensures DecodeText("<!" + x + ">") == x
  {
    var t := "!" + x;
    var s := "<" + t + ">";
    var p3 := "<" + x + ">";
    assert s == "<!" + x + ">";
    assert Inert(t) && forall i :: 0 <= i < |t| ==> t[i] != '|' by {
      assert forall i :: 1 <= i < |t| ==> t[i] == x[i - 1];
    }
    assert Gsub(s, KeepLabel) == s by {
      NoLabel(t);
      BracketUnmatched(t, KeepLabel);
    }
    BangNotBroadcast(x);
    BracketUnmatched(t, Broadcast);
    BangStage(x);
    BracketStrips(x);
    DecodeStages(s, s, s, p3, x);
  }

  /** A plain `<x>` (a link, say) decodes to `x`. */
  lemma DecodeBracket(x: string)
    requires Inert(x) && forall i :: 0 <= i < |x| ==> x[i] != '|'
    requires x == [] || x[0] != '!'
    ensures DecodeText("<" + x + ">") == x
  {
    var s := "<" + x + ">";
    LabelSkip(x);
    PlainBracketStages(x);
    DecodeStages(s, s, s, s, x);
  }

  // ---------------------------------------------------------------------------
  // remove_symbols and escape_command
  // ---------------------------------------------------------------------------

  /** The visual formatting symbols `remove_symbols` deletes. */
  predicate IsSymbol(c: char) {
    c == '_' || c == '*' || c == '~' || c == '`'
  }

  /** `remove_symbols`: `text.delete('_*~`')`. */
  function RemoveSymbols(text: string): (r: string)
    ensures forall i :: 0 <= i < |r| ==> !IsSymbol(r[i])
  {
    if text == [] then []
    else (if IsSymbol(text[0]) then [] else [text[0]]) + RemoveSymbols(text[1..])
  }

  /** Only the symbols go: every other character occurs as often as before. */
  lemma {:induction false} RemoveSymbolsCounts(text: string)
    ensures forall c :: !IsSymbol(c) ==> multiset(RemoveSymbols(text))[c] == multiset(text)[c]
  {
    if text != [] {
      RemoveSymbolsCounts(text[1..]);
      assert text == [text[0]] + text[1..];
    }
  }

  lemma {:induction false} RemoveSymbolsAppend(a: string, b: string)
    ensures RemoveSymbols(a + b) == RemoveSymbols(a) + RemoveSymbols(b)
  {
    if a != [] {
      assert (a + b)[0] == a[0];
      assert (a + b)[1..] == a[1..] + b;
      RemoveSymbolsAppend(a[1..], b);
      var head: string := if IsSymbol(a[0]) then [] else [a[0]];
      calc {
        RemoveSymbols(a + b);
        head + RemoveSymbols(a[1..] + b);
        head + (RemoveSymbols(a[1..]) + RemoveSymbols(b));
        (head + RemoveSymbols(a[1..])) + RemoveSymbols(b);
        RemoveSymbols(a) + RemoveSymbols(b);
      }
    } else {
      assert a + b == b;
    }
  }

  /** Text without symbols is left as it is. */
  lemma {:induction false} RemoveSymbolsNone(s: string)
    requires forall i :: 0 <= i < |s| ==> !IsSymbol(s[i])
    ensures RemoveSymbols(s) == s
  {
    if s != [] {
      RemoveSymbolsNone(s[1..]);
      assert s == [s[0]] + s[1..];
    }
  }

  lemma RemoveSymbolsIdempotent(s: string)
    ensures RemoveSymbols(RemoveSymbols(s)) == RemoveSymbols(s)
  {
    RemoveSymbolsNone(RemoveSymbols(s));
  }

  /** `escape_command(cmd, label)`: `<cmd>` or `<cmd|label>` (`caption` is the
      label); an empty label
      is still a label, since an empty string is truthy in Ruby. */
  function EscapeCommand(cmd: string, caption: Option<string>): (r: string)
    ensures |r| == |cmd| + 2 + (if caption.Some? then |caption.value| + 1 else 0)
    ensures r[0] == '<' && r[|r| - 1] == '>' && r[1..1 + |cmd|] == cmd
    ensures caption.Some? ==> r[1 + |cmd|] == '|' && r[2 + |cmd|..|r| - 1] == caption.value
  {
    "<" + cmd + (if caption.Some? then "|" + caption.value else "") + ">"
  }

  /** `decode_text` reads an escaped command back as the command. */
  lemma DecodeCommand(cmd: string)
    requires Inert(cmd) && forall i :: 0 <= i < |cmd| ==> cmd[i] != '|'
    requires cmd == [] || cmd[0] != '!'
    ensures DecodeText(EscapeCommand(cmd, None)) == cmd
  {
    CommandText(cmd, None);
    DecodeBracket(cmd);
  }

  /** `decode_text` reads a labelled command back as the command's leading
      sigils followed by the label. */
  lemma DecodeLabelledCommand(cmd: string, caption: string)
    requires Inert(cmd) && forall i :: 0 <= i < |cmd| ==> cmd[i] != '|'
    requires Inert(caption) && (Span(cmd, IsSigil) > 0 || caption == [] || caption[0] != '!')
    ensures DecodeText(EscapeCommand(cmd, Some(caption))) == cmd[..Span(cmd, IsSigil)] + caption
  {
    CommandText(cmd, Some(caption));
    DecodeLabel(cmd, caption);
  }

  lemma CommandText(cmd: string, caption: Option<string>)
    ensures caption.None? ==> EscapeCommand(cmd, caption) == "<" + cmd + ">"
    ensures caption.Some? ==> EscapeCommand(cmd, caption) == "<" + cmd + "|" + caption.value + ">"
  {
  }

  // ---------------------------------------------------------------------------
  // format_json_value, json_with_object, parse_json
  // ---------------------------------------------------------------------------

  /** `format_json_value`: arrays element-wise, hashes value-wise (rebuilt with
      `merge`), strings re-encoded as UTF-8, times as UTC ISO 8601 text,
      everything else as it is. */
  function FormatValue(v: Value, lib: Foreign.Library): (r: Value)
    ensures JsonReady(r) && WellFormed(r)
    ensures v.Arr? ==> r.Arr? && |r.items| == |v.items|
    ensures v.Arr? ==> forall i :: 0 <= i < |v.items| ==> r.items[i] == FormatValue(v.items[i], lib)
    ensures v.Obj? ==> r.Obj? && Keys(r.fields) == Keys(v.fields)
  {
    match v
    case Arr(items) =>
      var xs := seq(|items|, i requires 0 <= i < |items| => FormatValue(items[i], lib));
      assert forall i :: 0 <= i < |xs| ==> JsonReady(xs[i]) && WellFormed(xs[i]);
      Arr(xs)
    case Obj(fields) =>
      var ps := seq(|fields|, i requires 0 <= i < |fields| => (fields[i].0, FormatValue(fields[i].1, lib)));
      assert forall i :: 0 <= i < |ps| ==> ps[i].0 == fields[i].0;
      assert forall i :: 0 <= i < |ps| ==> JsonReady(ps[i].1) && WellFormed(ps[i].1);
      FormattedHash(fields, ps);
      Obj(ToH(ps))
    case Str(s) => Str(lib.encodeUtf8(s))
    case Time(t) => Str(lib.iso8601(t))
    case _ => v
  }

  /** A hash with distinct keys keeps its keys in their order. */
  lemma FormatKeepsKeyOrder(v: Value, lib: Foreign.Library)
    requires v.Obj? && DistinctKeys(v.fields)
    ensures FormatValue(v, lib).Obj?
    ensures KeyList(FormatValue(v, lib).fields) == KeyList(v.fields)
  {
    var fields := v.fields;
    var ps := seq(|fields|, i requires 0 <= i < |fields| => (fields[i].0, FormatValue(fields[i].1, lib)));
    FormattedHash(fields, ps);
    assert FormatValue(v, lib) == Obj(ps);
  }

  /** Each key of a formatted hash holds the formatted last value its key had
      in the original; with distinct keys, every pair stays in place with its
      value formatted. */
  lemma FormatHashValues(v: Value, lib: Foreign.Library)
    requires v.Obj?
    ensures FormatValue(v, lib).Obj?
    ensures forall k ::
      Find(FormatValue(v, lib).fields, k) ==
      (match LastValue(v.fields, k) case Some(x) => Some(FormatValue(x, lib)) case None => None)
    ensures DistinctKeys(v.fields) ==>
      |FormatValue(v, lib).fields| == |v.fields| &&
      forall i :: 0 <= i < |v.fields| ==> FormatValue(v, lib).fields[i] == (v.fields[i].0, FormatValue(v.fields[i].1, lib))
  {
    var fields := v.fields;
    var ps := seq(|fields|, i requires 0 <= i < |fields| => (fields[i].0, FormatValue(fields[i].1, lib)));
    assert FormatValue(v, lib) == Obj(ToH(ps));
    FormattedPairs(fields, lib);
    ToHLast(ps);
    if DistinctKeys(fields) {
      assert DistinctKeys(ps);
      ToHDistinct(ps);
    }
  }

  /** The last value of a key among the formatted pairs is the formatted last
      value of that key. */
  lemma {:induction false} FormattedPairs(fields: seq<(string, Value)>, lib: Foreign.Library)
    ensures var ps := seq(|fields|, i requires 0 <= i < |fields| => (fields[i].0, FormatValue(fields[i].1, lib)));
      Keys(ps) == Keys(fields) &&
      forall k :: LastValue(ps, k) == (match LastValue(fields, k) case Some(x) => Some(FormatValue(x, lib)) case None => None)
  {
    var ps := seq(|fields|, i requires 0 <= i < |fields| => (fields[i].0, FormatValue(fields[i].1, lib)));
    if fields != [] {
      var pre := fields[..|fields| - 1];
      FormattedPairs(pre, lib);
      var pps := seq(|pre|, i requires 0 <= i < |pre| => (pre[i].0, FormatValue(pre[i].1, lib)));
      assert ps == pps + [ps[|ps| - 1]];
      assert fields == pre + [fields[|fields| - 1]];
      KeysSnoc(ps);
      KeysSnoc(fields);
    }
  }

  /** Strings are re-encoded, times become ISO 8601 text, and nil, booleans,
      numbers and symbols pass unchanged. */
  lemma FormatLeaves(v: Value, lib: Foreign.Library)
    ensures v.Str? ==> FormatValue(v, lib) == Str(lib.encodeUtf8(v.s))
    ensures v.Time? ==> FormatValue(v, lib) == Str(lib.iso8601(v.epoch))
    ensures v.Null? || v.Bool? || v.Num? || v.Sym? ==> FormatValue(v, lib) == v
  {
  }

  /** The hash `format_json_value` rebuilds from formatted pairs with the
      original keys: JSON-ready, well formed, the same keys, and the pairs
      themselves when the keys were already distinct. */
  lemma FormattedHash(fields: seq<(string, Value)>, ps: seq<(string, Value)>)
    requires |ps| == |fields|
    requires forall i :: 0 <= i < |ps| ==> ps[i].0 == fields[i].0
    requires forall i :: 0 <= i < |ps| ==> JsonReady(ps[i].1) && WellFormed(ps[i].1)
    ensures JsonReady(Obj(ToH(ps))) && WellFormed(Obj(ToH(ps)))
    ensures Keys(ToH(ps)) == Keys(fields)
    ensures DistinctKeys(fields) ==> ToH(ps) == ps
  {
    assert Keys(ps) == Keys(fields);
    ToHValues(ps, JsonReady);
    ToHValues(ps, WellFormed);
    if DistinctKeys(fields) {
      assert DistinctKeys(ps);
      ToHDistinct(ps);
    }
  }

  /** Every value of `ps.to_h` is a value of some pair of `ps`. */
  lemma {:induction false} ToHValues<V>(ps: seq<(string, V)>, p: V -> bool)
    requires forall i :: 0 <= i < |ps| ==> p(ps[i].1)
    ensures forall i :: 0 <= i < |ToH(ps)| ==> p(ToH(ps)[i].1)
  {
    if ps != [] {
      var pre := ps[..|ps| - 1];
      ToHValues(pre, p);
      PutValues(ToH(pre), ps[|ps| - 1].0, ps[|ps| - 1].1, p);
    }
  }

  lemma PutValues<V>(h: seq<(string, V)>, k: string, v: V, p: V -> bool)
    requires forall i :: 0 <= i < |h| ==> p(h[i].1)
    requires p(v)
    ensures forall i :: 0 <= i < |Put(h, k, v)| ==> p(Put(h, k, v)[i].1)
  {
    PutInPlace(h, k, v);
  }

  /** The options `json_with_object` uses for `pretty: true`. */
  const PrettyOptions := Foreign.GenOptions("  ", " ", "\n", "\n")

  /** `json_with_object(obj, pretty:, opts:)`. */
  function JsonWithObject(obj: Value, pretty: bool, opts: Option<Foreign.GenOptions>, lib: Foreign.Library): (r: string)
    ensures obj.Null? ==> r == "{}"
    ensures !obj.Null? ==>
      r == lib.generate(FormatValue(obj, lib), if pretty then Some(PrettyOptions) else opts)
  {
    if obj.Null? then "{}"
    else lib.generate(FormatValue(obj, lib), if pretty then Some(PrettyOptions) else opts)
  }

  /** `parse_json`: the parsed value, or nil instead of a raised parse error. */
  function ParseJson(json: string, lib: Foreign.Library): (r: Value)
    ensures lib.parse(json).None? ==> r == Null
    ensures lib.parse(json).Some? ==> r == lib.parse(json).value
  {
    match lib.parse(json)
    case Some(v) => v
    case None => Null
  }
}
