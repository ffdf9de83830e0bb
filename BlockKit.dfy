/** Block Kit builders: the hashes Slack's Block Kit expects, built with Ruby
    key order (a key assigned later comes later). A block type given as a Ruby
    symbol is given here by its name. */
module BlockKit {
  import opened Values

  /** The default text type of every builder that takes one. */
  const Mrkdwn := "mrkdwn"

  /** `text(txt, type)`: a text object. `:mrkdwn` sets the type; `:emoji`
      marks emoji true; any other type marks emoji false; the type then
      defaults to `:plain_text`. */
  function Text(txt: string, kind: string := Mrkdwn): (r: Value)
    ensures r.Obj? && DistinctKeys(r.fields)
    ensures Get(r, "text") == Some(Str(txt))
    ensures kind == Mrkdwn ==> KeyList(r.fields) == ["text", "type"] && Get(r, "type") == Some(Sym("mrkdwn"))
    ensures kind != Mrkdwn ==>
      KeyList(r.fields) == ["text", "emoji", "type"] &&
      Get(r, "type") == Some(Sym("plain_text")) &&
      Get(r, "emoji") == Some(Bool(kind == "emoji"))
  {
    if kind == Mrkdwn then Obj([("text", Str(txt)), ("type", Sym(kind))])
    else
      var fs := [("text", Str(txt)), ("emoji", Bool(kind == "emoji")), ("type", Sym("plain_text"))];
      assert IndexOf(fs[1..], "type") == Some(1) by {
        assert IndexOf(fs[1..][1..], "type") == Some(0);
      }
      Obj(fs)
  }

  /** `plain_text(txt)`. */
  function PlainText(txt: string): (r: Value)
    ensures r == Text(txt, "plain")
    ensures Get(r, "emoji") == Some(Bool(false)) && Get(r, "type") == Some(Sym("plain_text"))
  {
    Text(txt, "plain")
  }

  /** `emoji_text(txt)`. */
  function EmojiText(txt: string): (r: Value)
    ensures r == Text(txt, "emoji")
    ensures Get(r, "emoji") == Some(Bool(true)) && Get(r, "type") == Some(Sym("plain_text"))
  {
    Text(txt, "emoji")
  }

  /** `con_text(txt, type)`: a context block with exactly one text element. */
  function ConText(txt: string, kind: string := Mrkdwn): (r: Value)
    ensures r.Obj? && KeyList(r.fields) == ["type", "elements"]
    ensures Get(r, "type") == Some(Sym("context"))
    ensures Get(r, "elements") == Some(Arr([Text(txt, kind)]))
  {
    Obj([("type", Sym("context")), ("elements", Arr([Text(txt, kind)]))])
  }

  /** `header(txt)`: a header block, always with emoji text. */
  function Header(txt: string): (r: Value)
    ensures r.Obj? && KeyList(r.fields) == ["type", "text"]
    ensures Get(r, "type") == Some(Sym("header"))
    ensures Get(r, "text") == Some(EmojiText(txt))
  {
    Obj([("type", Sym("header")), ("text", Text(txt, "emoji"))])
  }

  /** `sec_text(txt, type)`: a section block holding one text object. */
  function SecText(txt: string, kind: string := Mrkdwn): (r: Value)
    ensures r.Obj? && KeyList(r.fields) == ["type", "text"]
    ensures Get(r, "type") == Some(Sym("section"))
    ensures Get(r, "text") == Some(Text(txt, kind))
  {
    Obj([("type", Sym("section")), ("text", Text(txt, kind))])
  }

  /** `sec_fields(fields, type)`: a section block with one text object per
      given string, in the given order. */
  function SecFields(fields: seq<string>, kind: string := Mrkdwn): (r: Value)
    ensures r.Obj? && KeyList(r.fields) == ["type", "fields"]
    ensures Get(r, "type") == Some(Sym("section"))
    ensures Get(r, "fields").Some? && Get(r, "fields").value.Arr?
    ensures var items := Get(r, "fields").value.items;
      |items| == |fields| && forall i :: 0 <= i < |fields| ==> items[i] == Text(fields[i], kind)
  {
    Obj([("type", Sym("section")), ("fields", Arr(TextObjects(fields, kind)))])
  }

  /** `fields.map { |txt| text(txt, type) }`. */
  function TextObjects(fields: seq<string>, kind: string): (r: seq<Value>)
    ensures |r| == |fields|
    ensures forall i :: 0 <= i < |fields| ==> r[i] == Text(fields[i], kind)
  {
    if fields == [] then []
    else [Text(fields[0], kind)] + TextObjects(fields[1..], kind)
  }

  /** `option(value, txt, type)`: an option object. Named `SelectOption`
      because `Option` is the optional-value type. */
  function SelectOption(value: string, txt: string, kind: string := Mrkdwn): (r: Value)
    ensures r.Obj? && KeyList(r.fields) == ["text", "value"]
    ensures Get(r, "text") == Some(Text(txt, kind))
    ensures Get(r, "value") == Some(Str(value))
  {
    Obj([("text", Text(txt, kind)), ("value", Str(value))])
  }

  /** Mrkdwn text has no `emoji` key at all. */
  lemma MrkdwnHasNoEmoji(txt: string)
    ensures Get(Text(txt), "emoji") == None
  {
  }

  /** `:plain` and `:plain_text` give the same text object as any type other
      than `:mrkdwn` and `:emoji`. */
  lemma OtherKindsArePlain(txt: string, kind: string)
    requires kind != Mrkdwn && kind != "emoji"
    ensures Text(txt, kind) == PlainText(txt) == Text(txt, "plain_text")
  {
  }
}
