/** The Ruby core-library behaviour the source relies on: `String#split` with
    no argument, `String#to_i`, `Integer#to_s`, `Array#to_h` / `Hash#merge`
    on pairs, interpolation (`to_s`) and `[]` with a symbol key. */
module RubyCore {
  import opened Values
  import Foreign

  /** The characters Ruby counts as white space in `split` and `to_i`. */
  predicate IsSpace(c: char) {
    c == ' ' || c == '\t' || c == '\n' || c == '\U{0B}' || c == '\U{0C}' || c == '\r'
  }

  predicate NotSpace(c: char) {
    !IsSpace(c)
  }

  predicate AllSpace(s: string) {
    forall i :: 0 <= i < |s| ==> IsSpace(s[i])
  }

  predicate NoSpace(s: string) {
    forall i :: 0 <= i < |s| ==> !IsSpace(s[i])
  }

  /** The length of the longest prefix of `s` whose characters all satisfy `p`. */
  function Span(s: string, p: char -> bool): (n: nat)
    ensures n <= |s|
  {
    if s == [] || !p(s[0]) then 0 else 1 + Span(s[1..], p)
  }

  /** The span is a run of `p` characters that the next character, if any, ends. */
  lemma {:induction false} SpanRun(s: string, p: char -> bool)
    ensures forall i :: 0 <= i < Span(s, p) ==> p(s[i])
    ensures Span(s, p) < |s| ==> !p(s[Span(s, p)])
  {
    if s != [] && p(s[0]) {
      SpanRun(s[1..], p);
      assert forall i :: 1 <= i < Span(s, p) ==> s[i] == s[1..][i - 1];
    }
  }

  lemma {:induction false} SpanAppend(s: string, t: string, p: char -> bool)
    requires Span(s, p) < |s|
    ensures Span(s + t, p) == Span(s, p)
  {
    if p(s[0]) {
      assert (s + t)[1..] == s[1..] + t;
      SpanAppend(s[1..], t, p);
    }
  }

  /** `Span` is the only length with its two defining properties. */
  lemma {:induction false} SpanExact(s: string, p: char -> bool, m: nat)
    requires m <= |s|
    requires forall i :: 0 <= i < m ==> p(s[i])
    requires m < |s| ==> !p(s[m])
    ensures Span(s, p) == m
  {
    if m > 0 {
      SpanExact(s[1..], p, m - 1);
    }
  }

  // ---------------------------------------------------------------------------
  // String#split with no argument (awk mode)
  // ---------------------------------------------------------------------------

  /** `s.split`: the maximal runs of non-space characters, in order. */
  function Split(s: string): (r: seq<string>)
    ensures forall i :: 0 <= i < |r| ==> r[i] != [] && NoSpace(r[i])
    decreases |s|
  {
    if s == [] then []
    else if IsSpace(s[0]) then Split(s[1..])
    else
      var n := Span(s, NotSpace);
      SpanRun(s, NotSpace);
      [s[..n]] + Split(s[n..])
  }

  /** `s.split[-1]`: the last token, or nil when there is none. */
  function LastToken(s: string): (r: Option<string>)
    ensures r.Some? ==> r.value != [] && NoSpace(r.value)
  {
    var ts := Split(s);
    if ts == [] then None else Some(ts[|ts| - 1])
  }

  lemma {:induction false} SplitEmpty(s: string)
    ensures Split(s) == [] <==> AllSpace(s)
    decreases |s|
  {
    if s != [] && IsSpace(s[0]) {
      SplitEmpty(s[1..]);
      assert forall i :: 0 < i < |s| ==> s[i] == s[1..][i - 1];
    }
  }

  /** Splitting distributes over a concatenation whose left part ends at a space. */
  lemma {:induction false} SplitAppend(p: string, r: string)
    requires p == [] || IsSpace(p[|p| - 1])
    ensures Split(p + r) == Split(p) + Split(r)
    decreases |p|
  {
    if p == [] {
      assert p + r == r;
    } else if IsSpace(p[0]) {
      assert (p + r)[1..] == p[1..] + r;
      SplitAppend(p[1..], r);
    } else {
      var n := Span(p, NotSpace);
      SpanRun(p, NotSpace);
      SpanAppend(p, r, NotSpace);
      assert (p + r)[..n] == p[..n];
      assert (p + r)[n..] == p[n..] + r;
      SplitAppend(p[n..], r);
    }
  }

  lemma {:induction false} SplitSpaces(q: string)
    requires AllSpace(q)
    ensures Split(q) == []
  {
    SplitEmpty(q);
  }

  lemma SplitToken(t: string, q: string)
    requires t != [] && NoSpace(t) && AllSpace(q)
    ensures Split(t + q) == [t]
  {
    SpanExact(t + q, NotSpace, |t|);
    var n := Span(t + q, NotSpace);
    assert (t + q)[..n] == t;
    assert (t + q)[n..] == q;
    SplitSpaces(q);
  }

  /** The endpoint rule: the last token of `p + t + q` is `t` when `t` is a
      non-empty run of non-space characters, `q` is white space, and `p` is
      empty or ends in white space. */
  lemma LastTokenOf(p: string, t: string, q: string)
    requires t != [] && NoSpace(t) && AllSpace(q)
    requires p == [] || IsSpace(p[|p| - 1])
    ensures LastToken(p + t + q) == Some(t)
  {
    assert p + t + q == p + (t + q);
    SplitAppend(p, t + q);
    SplitToken(t, q);
  }

  lemma LastTokenNone(s: string)
    ensures LastToken(s) == None <==> AllSpace(s)
  {
    SplitEmpty(s);
  }

  // ---------------------------------------------------------------------------
  // String#to_i and Integer#to_s
  // ---------------------------------------------------------------------------

  predicate IsDigit(c: char) {
    '0' <= c <= '9'
  }

  predicate AllDigits(s: string) {
    forall i :: 0 <= i < |s| ==> IsDigit(s[i])
  }

  /** The digits of the longest prefix of the form `d+(_d+)*`, underscores dropped. */
  function DigitPrefix(s: string): (ds: string)
    ensures AllDigits(ds)
    ensures |ds| <= |s|
  {
    if s == [] || !IsDigit(s[0]) then []
    else if |s| >= 3 && s[1] == '_' && IsDigit(s[2]) then [s[0]] + DigitPrefix(s[2..])
    else [s[0]] + DigitPrefix(s[1..])
  }

  function DigitsValue(ds: string): nat
    requires AllDigits(ds)
  {
    if ds == [] then 0
    else DigitsValue(ds[..|ds| - 1]) * 10 + (ds[|ds| - 1] as int - '0' as int)
  }

  /** `s.to_i`: leading white space, an optional sign, then decimal digits where
      single underscores may separate digits; 0 when there are no digits. */
  function ToI(s: string): int {
    var t := s[Span(s, IsSpace)..];
    if t != [] && t[0] == '-' then -(DigitsValue(DigitPrefix(t[1..])) as int)
    else if t != [] && t[0] == '+' then DigitsValue(DigitPrefix(t[1..])) as int
    else DigitsValue(DigitPrefix(t)) as int
  }

  function DigitChar(d: nat): char
    requires d < 10
  {
    ('0' as int + d) as char
  }

  function NatToString(n: nat): (s: string)
    ensures s != [] && AllDigits(s)
  {
    if n < 10 then [DigitChar(n)] else NatToString(n / 10) + [DigitChar(n % 10)]
  }

  /** `n.to_s`. */
  function IntToString(n: int): string {
    if n < 0 then "-" + NatToString(-n) else NatToString(n)
  }

  lemma {:induction false} DigitPrefixOfDigits(ds: string)
    requires AllDigits(ds)
    ensures DigitPrefix(ds) == ds
  {
    if ds != [] {
      DigitPrefixOfDigits(ds[1..]);
    }
  }

  lemma {:induction false} NatToStringValue(n: nat)
    ensures DigitsValue(NatToString(n)) == n
  {
    var s := NatToString(n);
    if n >= 10 {
      NatToStringValue(n / 10);
      assert s[..|s| - 1] == NatToString(n / 10);
    }
  }

  /** `to_i` reads back what `to_s` writes. */
  lemma ToIOfToS(n: int)
    ensures ToI(IntToString(n)) == n
  {
    var s := IntToString(n);
    var digits := if n < 0 then NatToString(-n) else NatToString(n);
    assert Span(s, IsSpace) == 0;
    assert s[0..] == s;
    DigitPrefixOfDigits(digits);
    NatToStringValue(if n < 0 then -n else n);
    if n < 0 {
      assert s[1..] == digits;
    }
  }

  // ---------------------------------------------------------------------------
  // Hash building: Array#to_h and Hash#merge on pairs
  // ---------------------------------------------------------------------------

  /** `h[k] = v` / `h.merge({k => v})`: replace in place when the key is
      present, otherwise append. */
  function Put<V>(h: seq<(string, V)>, k: string, v: V): (r: seq<(string, V)>)
    ensures Keys(r) == Keys(h) + {k}
    ensures DistinctKeys(h) ==> DistinctKeys(r)
    ensures Find(r, k) == Some(v)
    ensures forall k' :: k' != k ==> Find(r, k') == Find(h, k')
  {
    match IndexOf(h, k)
    case Some(i) =>
      var r := h[i := (k, v)];
      assert Keys(r) == Keys(h) by {
        forall x | x in Keys(h) ensures x in Keys(r) {
          var j :| 0 <= j < |h| && h[j].0 == x;
          assert r[j].0 == x;
        }
        forall x | x in Keys(r) ensures x in Keys(h) {
          var j :| 0 <= j < |r| && r[j].0 == x;
          assert h[j].0 == x;
        }
      }
      IndexOfAt(r, k, i);
      forall k' | k' != k ensures Find(r, k') == Find(h, k') {
        IndexOfSameKeys(h, r, k');
      }
      r
    case None =>
      var r := h + [(k, v)];
      assert Keys(r) == Keys(h) + {k} by {
        forall x | x in Keys(r) ensures x in Keys(h) + {k} {
          var j :| 0 <= j < |r| && r[j].0 == x;
          if j < |h| { assert h[j].0 == x; }
        }
        assert r[|h|].0 == k;
        forall x | x in Keys(h) ensures x in Keys(r) {
          var j :| 0 <= j < |h| && h[j].0 == x;
          assert r[j].0 == x;
        }
      }
      IndexOfAt(r, k, |h|);
      forall k' | k' != k ensures Find(r, k') == Find(h, k') {
        IndexOfExtend(h, k, v, k');
      }
      r
  }

  /** `Put` works in place: a present key keeps its position, a new key
      goes at the end, and every other pair stays where it was. */
  lemma PutInPlace<V>(h: seq<(string, V)>, k: string, v: V)
    ensures var r := Put(h, k, v);
      (k in Keys(h) ==> |r| == |h|) && (k !in Keys(h) ==> r == h + [(k, v)]) &&
      (forall i :: 0 <= i < |h| ==> r[i].0 == h[i].0) &&
      (forall i :: 0 <= i < |h| && h[i].0 != k ==> r[i] == h[i]) &&
      (forall i :: 0 <= i < |r| ==> r[i] == (k, v) || (i < |h| && r[i] == h[i]))
  {
  }

  lemma IndexOfAt<V>(fs: seq<(string, V)>, k: string, i: nat)
    requires i < |fs| && fs[i].0 == k
    requires forall j :: 0 <= j < i ==> fs[j].0 != k
    ensures IndexOf(fs, k) == Some(i)
  {
    var r := IndexOf(fs, k);
    assert k in Keys(fs);
  }

  lemma IndexOfSameKeys<V>(h: seq<(string, V)>, r: seq<(string, V)>, k: string)
    requires |h| == |r| && forall i :: 0 <= i < |h| ==> r[i].0 == h[i].0
    requires forall i :: 0 <= i < |h| && h[i].0 == k ==> r[i] == h[i]
    ensures Find(r, k) == Find(h, k)
  {
    match IndexOf(h, k)
    case Some(i) => IndexOfAt(r, k, i);
    case None =>
      assert Keys(r) == Keys(h) by {
        forall x | x in Keys(h) ensures x in Keys(r) {
          var j :| 0 <= j < |h| && h[j].0 == x;
          assert r[j].0 == x;
        }
        forall x | x in Keys(r) ensures x in Keys(h) {
          var j :| 0 <= j < |r| && r[j].0 == x;
          assert h[j].0 == x;
        }
      }
  }

  lemma IndexOfExtend<V>(h: seq<(string, V)>, k: string, v: V, k': string)
    requires k' != k
    ensures Find(h + [(k, v)], k') == Find(h, k')
  {
    var r := h + [(k, v)];
    match IndexOf(h, k')
    case Some(i) => IndexOfAt(r, k', i);
    case None =>
      assert k' !in Keys(r) by {
        forall j | 0 <= j < |r| ensures r[j].0 != k' {
          if j < |h| { assert r[j] == h[j]; assert h[j].0 in Keys(h); }
        }
      }
  }

  /** The value the last pair with key `k` carries. */
  function LastValue<V>(ps: seq<(string, V)>, k: string): Option<V> {
    if ps == [] then None
    else if ps[|ps| - 1].0 == k then Some(ps[|ps| - 1].1)
    else LastValue(ps[..|ps| - 1], k)
  }

  lemma KeysSnoc<V>(ps: seq<(string, V)>)
    requires ps != []
    ensures Keys(ps) == Keys(ps[..|ps| - 1]) + {ps[|ps| - 1].0}
  {
    var pre := ps[..|ps| - 1];
    forall x | x in Keys(ps) ensures x in Keys(pre) + {ps[|ps| - 1].0} {
      var j :| 0 <= j < |ps| && ps[j].0 == x;
      if j < |pre| { assert pre[j].0 == x; }
    }
    forall x | x in Keys(pre) ensures x in Keys(ps) {
      var j :| 0 <= j < |pre| && pre[j].0 == x;
      assert ps[j].0 == x;
    }
  }

  /** `pairs.to_h` (and `reduce({}) { |h, (k, v)| h.merge({k => v}) }`):
      keys in order of first appearance, each with its last value. */
  function ToH<V>(ps: seq<(string, V)>): (r: seq<(string, V)>)
    ensures DistinctKeys(r)
    ensures Keys(r) == Keys(ps)
  {
    if ps == [] then []
    else
      var pre := ps[..|ps| - 1];
      var r := Put(ToH(pre), ps[|ps| - 1].0, ps[|ps| - 1].1);
      KeysSnoc(ps);
      r
  }

  /** Each key of `ps.to_h` holds the last value paired with it. */
  lemma {:induction false} ToHLast<V>(ps: seq<(string, V)>)
    ensures forall k :: Find(ToH(ps), k) == LastValue(ps, k)
  {
    if ps != [] {
      ToHLast(ps[..|ps| - 1]);
    }
  }

  /** A sequence of pairs that already has distinct keys is its own hash. */
  lemma {:induction false} ToHDistinct<V>(ps: seq<(string, V)>)
    requires DistinctKeys(ps)
    ensures ToH(ps) == ps
  {
    if ps != [] {
      var pre, last := ps[..|ps| - 1], ps[|ps| - 1];
      DistinctSnoc(ps);
      ToHDistinct(pre);
      PutInPlace(pre, last.0, last.1);
      assert pre + [(last.0, last.1)] == ps;
    }
  }

  /** Dropping the last pair keeps the keys distinct, and its key is new. */
  lemma DistinctSnoc<V>(ps: seq<(string, V)>)
    requires ps != [] && DistinctKeys(ps)
    ensures DistinctKeys(ps[..|ps| - 1]) && ps[|ps| - 1].0 !in Keys(ps[..|ps| - 1])
  {
    var pre := ps[..|ps| - 1];
    forall j | 0 <= j < |pre| ensures pre[j].0 != ps[|ps| - 1].0 {
      assert pre[j] == ps[j];
    }
  }

  // ---------------------------------------------------------------------------
  // Interpolation and `[]`
  // ---------------------------------------------------------------------------

  /** `"#{v}"`: the text interpolation puts in place of `v`. */
  function ToS(v: Value, lib: Foreign.Library): string {
    match v
    case Null => ""
    case Bool(b) => if b then "true" else "false"
    case Num(n) => IntToString(n)
    case Str(s) => s
    case Sym(name) => name
    case _ => lib.inspect(v)
  }

  /** `v[:key]`: a hash answers the stored value or nil; nil and booleans
      raise `NoMethodError`; strings, symbols, integers and arrays reject a
      symbol index with `TypeError`. */
  function Index(v: Value, key: string): (r: Outcome<Value>)
    ensures r.Returned? <==> v.Obj?
    ensures v.Obj? && key in Keys(v.fields) ==> r == Returned(Find(v.fields, key).value)
    ensures v.Obj? && key !in Keys(v.fields) ==> r == Returned(Null)
  {
    match v
    case Obj(fields) =>
      (match Find(fields, key) case Some(x) => Returned(x) case None => Returned(Null))
    case Null => Raised("NoMethodError")
    case Bool(_) => Raised("NoMethodError")
    case Time(_) => Raised("NoMethodError")
    case _ => Raised("TypeError")
  }
}
