/** Reading the description of an object: the text alone, character by character. */
module DescriptionText {
  import opened Options

  /** No comma is followed by a blank, so that the part can be told from its neighbours. */
  predicate Separable(part: string) {
    forall i :: 0 <= i < |part| - 1 ==> !(part[i] == ',' && part[i + 1] == ' ')
  }

  predicate AllSeparable(parts: seq<string>) {
    forall i :: 0 <= i < |parts| ==> Separable(parts[i])
  }

  /** Where the first comma followed by a blank is; the length if there is none. */
  function CommaAt(s: string): (k: nat)
    ensures k <= |s| && (k < |s| ==> k + 2 <= |s|)
  {
    if |s| < 2 then |s|
    else if s[0] == ',' && s[1] == ' ' then 0
    else 1 + CommaAt(s[1..])
  }

  function Pieces(s: string): seq<string>
    decreases |s|
  {
    var k := CommaAt(s);
    if k == |s| then [s] else [s[..k]] + Pieces(s[k + 2..])
  }

  /** Whether it is an array, and the parts it shows. */
  datatype Shown = Shown(isArray: bool, parts: seq<string>)

  function ReadShown(text: string): Option<Shown> {
    var n := |text|;
    if text == "[]" then Some(Shown(true, []))
    else if text == "{}" then Some(Shown(false, []))
    else if 4 <= n && text[..2] == "[ " && text[n - 2..] == " ]" then Some(Shown(true, Pieces(text[2..n - 2])))
    else if 4 <= n && text[..2] == "{ " && text[n - 2..] == " }" then Some(Shown(false, Pieces(text[2..n - 2])))
    else None
  }

  lemma {:induction false} CommaAfter(part: string, rest: string)
    requires Separable(part)
    ensures CommaAt(part + ", " + rest) == |part| && CommaAt(part) == |part|
  {
    var s := part + ", " + rest;
    if part != "" {
      assert s[1..] == part[1..] + ", " + rest;
      CommaAfter(part[1..], rest);
    }
  }

  lemma PiecesOne(part: string)
    requires Separable(part)
    ensures Pieces(part) == [part]
  {
    CommaAfter(part, "");
  }

  lemma PiecesMore(part: string, rest: string)
    requires Separable(part)
    ensures Pieces(part + ", " + rest) == [part] + Pieces(rest)
  {
    var s := part + ", " + rest;
    CommaAfter(part, rest);
    assert s[..|part|] == part && s[|part| + 2..] == rest;
  }

  lemma ReadsInside(isArray: bool, inside: string)
    ensures ReadShown((if isArray then "[" else "{") + " " + inside + " " + (if isArray then "]" else "}"))
            == Some(Shown(isArray, Pieces(inside)))
  {
    var text := (if isArray then "[" else "{") + " " + inside + " " + (if isArray then "]" else "}");
    var n := |text|;
    assert text[..2] == (if isArray then "[ " else "{ ") && text[n - 2..] == (if isArray then " ]" else " }");
    assert text[2..n - 2] == inside;
  }
}
