/** The "Available Servers" list rows of ez_browser.py: a row is rendered as
    `name - ip:port` and the endpoint is parsed back from the text after the first " - ". */
module Rows {

  import opened Common
  import opened Launch

  const Separator: string := " - "

  /** `f"{name} - {ip}:{port}"`. */
  function FormatRow(name: string, ip: string, port: int): string
  {
    name + Separator + Endpoint(ip, port)
  }

  /** `text.split(" - ", 1)[1]`: the text after the first separator, or an error (the
      `IndexError` the window reports as a parse error) when there is none. */
  function ParseEndpoint(text: string): (r: Option<string>)
    ensures r.None? <==> !Contains(text, Separator)
    ensures r.Some? ==>
      exists i: nat ::
        && OccursAt(text, Separator, i)
        && (forall j: nat :: j < i ==> !OccursAt(text, Separator, j))
        && r.value == text[i + |Separator|..]
  {
    match IndexOf(text, Separator, 0)
    case None => None
    case Some(i) => Some(text[i + |Separator|..])
  }

  /** Parsing a row gives back exactly what followed the name if and only if no separator
      starts inside the name, i.e. `name + " -"` contains no " - ". */
  lemma RowRoundTrip(name: string, rest: string)
    ensures ParseEndpoint(name + Separator + rest) == Some(rest) <==> !Contains(name + " -", Separator)
  {
    var text := name + Separator + rest;
    var head := name + " -";
    assert OccursAt(text, Separator, |name|) by {
      assert text[|name|..|name| + 3] == Separator;
    }
    forall j: nat | j < |name| ensures OccursAt(text, Separator, j) <==> OccursAt(head, Separator, j) {
      if j + 3 <= |head| {
        assert text[j..j + 3] == head[j..j + 3];
      }
    }
    if Contains(head, Separator) {
      var j: nat :| j <= |head| && OccursAt(head, Separator, j);
      assert j < |name|;
      var r := ParseEndpoint(text);
      var i: nat :| OccursAt(text, Separator, i) && (forall k: nat :: k < i ==> !OccursAt(text, Separator, k)) &&
        r.value == text[i + |Separator|..];
      assert i <= j;
      assert |r.value| > |rest|;
    } else {
      var r := ParseEndpoint(text);
      var i: nat :| OccursAt(text, Separator, i) && (forall k: nat :: k < i ==> !OccursAt(text, Separator, k)) &&
        r.value == text[i + |Separator|..];
      if i < |name| {
        assert false;
      }
      assert i == |name|;
      assert text[|name| + 3..] == rest;
    }
  }

  /** The round trip of a rendered row, for a name that cannot confuse the parser. */
  lemma FormatThenParse(name: string, ip: string, port: int)
    requires !Contains(name + " -", Separator)
    ensures ParseEndpoint(FormatRow(name, ip, port)) == Some(Endpoint(ip, port))
  {
    RowRoundTrip(name, Endpoint(ip, port));
  }

  /** Excluding " - " from the name is not enough: a name ending in " -" shifts the parse
      one character left. */
  lemma TrailingDashName(rest: string)
    ensures !Contains("Delta -", Separator)
    ensures ParseEndpoint("Delta -" + Separator + rest) == Some("- " + rest)
  {
    var name := "Delta -";
    var text := name + Separator + rest;
    forall j: nat | j < 5 ensures !OccursAt(name, Separator, j) && !OccursAt(text, Separator, j) {
      assert name[j] != ' ' && text[j] == name[j];
      assert j + 3 <= |name| ==> name[j..j + 3][0] == name[j];
      assert text[j..j + 3][0] == text[j];
    }
    forall j: nat | 5 <= j <= |name| ensures !OccursAt(name, Separator, j) {
    }
    assert OccursAt(text, Separator, 5) by {
      assert text[5..8] == Separator;
    }
    var r := ParseEndpoint(text);
    var i: nat :| OccursAt(text, Separator, i) && (forall k: nat :: k < i ==> !OccursAt(text, Separator, k)) &&
      r.value == text[i + |Separator|..];
    assert i == 5;
    assert text[8..] == "- " + rest;
  }
}
