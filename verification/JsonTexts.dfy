/**
 What is needed of JSON to read the details of an audit entry back: a character
 that JSON uses only inside string literals never separates two JSON texts.
 */
module JsonTexts {

  /** Where a reader of JSON text stands with respect to string literals. */
  datatype Place = Outside | Inside | Escaped | Wrong

  function Past(place: Place, c: char): Place {
    match place
    case Outside => if c == '"' then Inside else if c == '\\' || c == '|' then Wrong else Outside
    case Inside => if c == '"' then Outside else if c == '\\' then Escaped else Inside
    case Escaped => Inside
    case Wrong => Wrong
  }

  function Scan(place: Place, text: string): Place
    decreases text
  {
    if text == "" then place else Scan(Past(place, text[0]), text[1..])
  }

  /** String literals are closed, and outside them there is neither separator nor backslash. */
  predicate JsonText(text: string) {
    Scan(Outside, text) == Outside
  }

  lemma {:induction false} ScanAdds(place: Place, a: string, b: string)
    ensures Scan(place, a + b) == Scan(Scan(place, a), b)
    decreases a
  {
    if a == "" {
      assert a + b == b;
    } else {
      assert (a + b)[1..] == a[1..] + b;
      ScanAdds(Past(place, a[0]), a[1..], b);
    }
  }

  /** JSON values; `Plain` are numbers, booleans and null. */
  datatype Json = Plain(text: string) | Text(content: string) | List(items: Items) | Object(items: Items)

  /** The members of a list or, with their names, of an object. */
  datatype Items = End | Item(name: string, value: Json, rest: Items)

  /** How an encoder writes the characters of a string literal: as they are, or behind a backslash. */
  ghost predicate Quotes(code: char -> string) {
    forall c :: Scan(Inside, code(c)) == Inside
  }

  function Literal(code: char -> string, content: string): string {
    if content == "" then "" else code(content[0]) + Literal(code, content[1..])
  }

  function Quoted(code: char -> string, content: string): string {
    "\"" + Literal(code, content) + "\""
  }

  function Encoded(code: char -> string, value: Json): string
    decreases value
  {
    match value
    case Plain(text) => text
    case Text(content) => Quoted(code, content)
    case List(items) => "[" + EncodedItems(code, false, items) + "]"
    case Object(items) => "{" + EncodedItems(code, true, items) + "}"
  }

  function EncodedItems(code: char -> string, named: bool, items: Items): string
    decreases items
  {
    match items
    case End => ""
    case Item(name, value, rest) =>
      (if named then Quoted(code, name) + ":" else "") + Encoded(code, value)
      + (if rest.End? then "" else ",") + EncodedItems(code, named, rest)
  }

  ghost predicate PlainIsPlain(value: Json) {
    match value
    case Plain(text) => JsonText(text)
    case Text(_) => true
    case List(items) => ItemsArePlain(items)
    case Object(items) => ItemsArePlain(items)
  }

  ghost predicate ItemsArePlain(items: Items) {
    items.Item? ==> PlainIsPlain(items.value) && ItemsArePlain(items.rest)
  }

  lemma {:induction false} LiteralStaysInside(code: char -> string, content: string)
    requires Quotes(code)
    ensures Scan(Inside, Literal(code, content)) == Inside
  {
    if content != "" {
      ScanAdds(Inside, code(content[0]), Literal(code, content[1..]));
      LiteralStaysInside(code, content[1..]);
    }
  }

  lemma QuotedIsJsonText(code: char -> string, content: string)
    requires Quotes(code)
    ensures JsonText(Quoted(code, content))
  {
    LiteralStaysInside(code, content);
    ScanAdds(Outside, "\"" + Literal(code, content), "\"");
    ScanAdds(Outside, "\"", Literal(code, content));
    assert Scan(Outside, "\"") == Inside && Scan(Inside, "\"") == Outside;
  }

  lemma JsonTextAdds(a: string, b: string)
    requires JsonText(a) && JsonText(b)
    ensures JsonText(a + b)
  {
    ScanAdds(Outside, a, b);
  }

  lemma Punctuation()
    ensures JsonText("") && JsonText("[") && JsonText("]") && JsonText("{") && JsonText("}")
    ensures JsonText(",") && JsonText(":")
  {
  }

  /** Whatever an encoder writes is JSON text in the sense above. */
  lemma {:induction false} EncodedIsJsonText(code: char -> string, value: Json)
    requires Quotes(code) && PlainIsPlain(value)
    ensures JsonText(Encoded(code, value))
    decreases value
  {
    hide JsonText;
    Punctuation();
    match value
    case Plain(_) =>
    case Text(content) => QuotedIsJsonText(code, content);
    case List(items) =>
      EncodedItemsAreJsonText(code, false, items);
      JsonTextAdds("[", EncodedItems(code, false, items));
      JsonTextAdds("[" + EncodedItems(code, false, items), "]");
    case Object(items) =>
      EncodedItemsAreJsonText(code, true, items);
      JsonTextAdds("{", EncodedItems(code, true, items));
      JsonTextAdds("{" + EncodedItems(code, true, items), "}");
  }

  lemma {:induction false} EncodedItemsAreJsonText(code: char -> string, named: bool, items: Items)
    requires Quotes(code) && ItemsArePlain(items)
    ensures JsonText(EncodedItems(code, named, items))
    decreases items
  {
    hide JsonText, Quoted, Encoded;
    Punctuation();
    if items.Item? {
      var name := if named then Quoted(code, items.name) + ":" else "";
      var comma := if items.rest.End? then "" else ",";
      QuotedIsJsonText(code, items.name);
      JsonTextAdds(Quoted(code, items.name), ":");
      EncodedIsJsonText(code, items.value);
      EncodedItemsAreJsonText(code, named, items.rest);
      JsonTextAdds(name, Encoded(code, items.value));
      JsonTextAdds(name + Encoded(code, items.value), comma);
      JsonTextAdds(name + Encoded(code, items.value) + comma, EncodedItems(code, named, items.rest));
    }
  }

  /** Two readers of which one stands inside and the other outside a literal never both end outside. */
  lemma {:induction false} OneEndsInside(p: Place, p': Place, text: string)
    requires p == Wrong || p' == Wrong || (p == Outside && p' == Inside) || (p == Inside && p' == Outside)
    ensures !(Scan(p, text) == Outside && Scan(p', text) == Outside)
    decreases text
  {
    if text != "" {
      OneEndsInside(Past(p, text[0]), Past(p', text[0]), text[1..]);
    }
  }

  /** What stands behind a separator in a JSON text is not JSON itself. */
  lemma NoJsonBehindSeparator(front: string, rest: string)
    requires JsonText(front + "|" + rest)
    ensures !JsonText(rest)
  {
    ScanAdds(Outside, front + "|", rest);
    ScanAdds(Outside, front, "|");
    var place := Scan(Outside, front);
    assert Scan(place, "|") == Past(place, '|');
    OneEndsInside(Outside, Past(place, '|'), rest);
  }
}
