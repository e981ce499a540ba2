/**
 * The markup builder (`DocHelper`): start, end and content tags, self-closing
 * tags with one attribute, and bracketed C# attributes.  C# overloads get
 * distinct names here: `CreateTagWithVar` is the three-argument overload and
 * `CreateTagWithVarAndContent` the four-argument one; `CreateAttribute` takes
 * a name only and `CreateAttributeWithValue` a name and a value.
 */
module DocHelper {
  import opened Text

  function CreateStartTag(tag: string): (r: string)
    ensures |r| == |tag| + 2 && r[0] == '<' && r[1..|r| - 1] == tag && r[|r| - 1] == '>'
  {
    "<" + tag + ">"
  }

  function CreateEndTag(tag: string): (r: string)
    ensures |r| == |tag| + 3 && r[..2] == "</" && r[2..|r| - 1] == tag && r[|r| - 1] == '>'
  {
    "</" + tag + ">"
  }

  /** `<tag>content</tag>`: the content sits between the start and the end tag. */
  function CreateTag(tag: string, content: string): (r: string)
    ensures |r| == 2 * |tag| + 5 + |content|
    ensures StartsWith(r, CreateStartTag(tag)) && EndsWith(r, CreateEndTag(tag))
    ensures r[|tag| + 2..|r| - |tag| - 3] == content
  {
    "<" + tag + ">" + content + "</" + tag + ">"
  }

  /** The opening of an element carrying one attribute, up to its value's opening quote. */
  function AttributeOpening(tag: string, variableName: string): (r: string)
  {
    "<" + tag + " " + variableName + "=\""
  }

  /** `<tag name="value"/>`. */
  function CreateTagWithVar(tag: string, variableName: string, variableValue: string): (r: string)
    ensures |r| == |AttributeOpening(tag, variableName)| + |variableValue| + 3
    ensures StartsWith(r, AttributeOpening(tag, variableName)) && EndsWith(r, "\"/>")
    ensures r[|AttributeOpening(tag, variableName)|..|r| - 3] == variableValue
  {
    "<" + tag + " " + variableName + "=\"" + variableValue + "\"/>"
  }

  /** A character found in none of the parts and in no punctuation is absent from the element. */
  lemma TagWithVarLacks(tag: string, variableName: string, variableValue: string, c: char)
    requires c !in tag && c !in variableName && c !in variableValue && c !in "< =\"/>"
    ensures c !in CreateTagWithVar(tag, variableName, variableValue)
  {
  }

  /** `<tag name="value">content</tag>`, closed by the ordinary end tag. */
  function CreateTagWithVarAndContent(tag: string, variableName: string, variableValue: string, content: string): (r: string)
    ensures |r| == |AttributeOpening(tag, variableName)| + |variableValue| + 2 + |content| + |tag| + 3
    ensures StartsWith(r, AttributeOpening(tag, variableName) + variableValue + "\">")
    ensures EndsWith(r, CreateEndTag(tag))
    ensures r[|AttributeOpening(tag, variableName)| + |variableValue| + 2..|r| - |tag| - 3] == content
  {
    "<" + tag + " " + variableName + "=\"" + variableValue + "\">" + content + "</" + tag + ">"
  }

  /** `[name]`. */
  function CreateAttribute(name: string): (r: string)
    ensures |r| == |name| + 2 && r[0] == '[' && r[1..|r| - 1] == name && r[|r| - 1] == ']'
  {
    "[" + name + "]"
  }

  /** A value that both starts and ends with a double quote counts as quoted. */
  predicate IsQuoted(value: string) {
    StartsWith(value, "\"") && EndsWith(value, "\"")
  }

  /** The value as `CreateAttribute(name, value)` writes it: quoted unless it already is. */
  function Quote(value: string): (r: string)
    ensures IsQuoted(r)
    ensures IsQuoted(value) ==> r == value
    ensures !IsQuoted(value) ==> |r| == |value| + 2 && r[1..|r| - 1] == value
  {
    if !StartsWith(value, "\"") || !EndsWith(value, "\"") then "\"" + value + "\"" else value
  }

  /** `[name(value)]` with the value quoted unless it already is. */
  function CreateAttributeWithValue(name: string, value: string): (r: string)
    ensures |r| == |name| + 4 + |Quote(value)|
    ensures StartsWith(r, "[" + name + "(\"") && EndsWith(r, "\")]")
    ensures r[|name| + 2..|r| - 2] == Quote(value)
  {
    "[" + name + "(" + Quote(value) + ")]"
  }

  /** Quoting twice is quoting once, so handing over a quoted value changes nothing. */
  lemma QuoteIdempotent(name: string, value: string)
    ensures Quote(Quote(value)) == Quote(value)
    ensures CreateAttributeWithValue(name, Quote(value)) == CreateAttributeWithValue(name, value)
  {
  }
}
