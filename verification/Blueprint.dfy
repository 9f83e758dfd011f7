/** What a resolved intent draft holds, before and after decodeBlueprint. */
module Blueprint {
  import opened Common

  /** One textual {"$ref":{"to":"<addr>"}} match: the whole marker is
      chars[start..end], the captured address chars[addrStart..addrEnd]. */
  datatype RefSpan = RefSpan(start: nat, addrStart: nat, addrEnd: nat, end: nat)

  /** One {param} or {param op literal} match, chars[start..end].  op is empty for a
      bare reference. */
  datatype Token = Token(start: nat, end: nat, name: string, op: string, literal: string)

  /** One reference that decoding a text collects, however deep it stands and however it
      is escaped: the address, and where the stack name it starts with is written,
      chars[start..end]. */
  datatype Mark = Mark(start: nat, end: nat, address: string)

  /** A string leaf, together with what the JSON decoder and the two regular
      expressions of the generators report about it: the value it decodes to when it
      is itself JSON text, the references of that value in the order they are written,
      the markers the first expression matches and the placeholders the second does. */
  datatype Text = Text(
    chars: string,
    decoded: Option<Json>,
    marks: seq<Mark>,
    refs: seq<RefSpan>,
    tokens: seq<Token>)

  /** The languages code is generated in. */
  datatype Lang = Go | TypeScript | Python

  datatype Json =
    | Null
    | Bool(b: bool)
    | Num(n: real)
    | Str(text: Text)
    | Arr(items: seq<Json>)
    | Obj(fields: map<string, Json>)

  datatype ResourceIntent = ResourceIntent(
    isCreate: bool,
    rtype: string,
    name: Text,
    config: map<string, Json>,
    dependsOn: seq<string>,
    forEach: string,
    createIf: seq<string>)
  {
    function Address(): string { rtype + "." + name.chars }
  }

  datatype DecodedResource = DecodedResource(ri: ResourceIntent, deps: set<string>) {
    function Address(): string { ri.Address() }
  }
}
