/** Splitting a string at delimiter characters, and joining the pieces. */
module SplitJoin {

  // ----- The list of pieces

  /** The length of the delimiter-free run at the start of s. */
  function Run(s: string, delim: string): (n: nat)
    ensures n <= |s| && (forall k :: 0 <= k < n ==> s[k] !in delim) && (n < |s| ==> s[n] in delim)
  {
    if s == [] || s[0] in delim then 0 else 1 + Run(s[1..], delim)
  }

  /** The maximal delimiter-free runs of s, in order. */
  function Split(s: string, delim: string): seq<string>
    decreases |s|
  {
    if s == [] then []
    else if s[0] in delim then Split(s[1..], delim)
    else [s[..Run(s, delim)]] + Split(s[Run(s, delim)..], delim)
  }

  // ----- The two ways the code finds them

  lemma SplitNext(s: string, delim: string, i: nat)
    requires i < |s|
    ensures s[i] in delim ==> Split(s[i..], delim) == Split(s[i + 1..], delim)
  {
  }

  lemma RunIs(s: string, delim: string, n: nat)
    requires n <= |s| && (forall k :: 0 <= k < n ==> s[k] !in delim) && (n < |s| ==> s[n] in delim)
    ensures Run(s, delim) == n
  {
  }

  lemma SplitRun(s: string, delim: string, i: nat, j: nat)
    requires i < j <= |s| && (forall k :: i <= k < j ==> s[k] !in delim) && (j < |s| ==> s[j] in delim)
    ensures Split(s[i..], delim) == [s[i..j]] + Split(s[j..], delim)
  {
    RunIs(s[i..], delim, j - i);
    assert s[i..][..j - i] == s[i..j] && s[i..][j - i..] == s[j..];
  }

  lemma SplitPiece(result: seq<string>, s: string, delim: string, i: nat, j: nat)
    requires i < j <= |s| && (forall k :: i <= k < j ==> s[k] !in delim) && (j < |s| ==> s[j] in delim)
    ensures (result + [s[i..j]]) + Split(s[j..], delim) == result + Split(s[i..], delim)
  {
    SplitRun(s, delim, i, j);
    assert (result + [s[i..j]]) + Split(s[j..], delim) == result + ([s[i..j]] + Split(s[j..], delim));
  }

  /** One delimiter character: a single pass over the string. */
  method SplitByCharacter(full: string, c: char, before: seq<string>) returns (result: seq<string>)
    ensures result == before + Split(full, [c])
  {
    result := before;
    var p := 0;
    ghost var whole := before + Split(full, [c]);
    assert full[0..] == full;
    while p != |full|
      invariant 0 <= p <= |full|
      invariant result + Split(full[p..], [c]) == whole
      decreases |full| - p
    {
      if full[p] == c {
        SplitNext(full, [c], p);
        p := p + 1;
      } else {
        var start := p;
        p := p + 1;
        while p != |full| && full[p] != c
          invariant start < p <= |full|
          invariant forall k :: start <= k < p ==> full[k] != c
          decreases |full| - p
        {
          p := p + 1;
        }
        SplitPiece(result, full, [c], start, p);
        result := result + [full[start..p]];
      }
    }
  }

  /** The first position from `from` on whose character is, or is not, in a set; the length if there is none. */
  method FindFirst(full: string, delim: string, wanted: bool, from: nat) returns (i: nat)
    requires from <= |full|
    ensures from <= i <= |full|
    ensures forall k :: from <= k < i ==> (full[k] in delim) != wanted
    ensures i < |full| ==> (full[i] in delim) == wanted
  {
    i := from;
    while i < |full| && (full[i] in delim) != wanted
      invariant from <= i <= |full|
      invariant forall k :: from <= k < i ==> (full[k] in delim) != wanted
    {
      i := i + 1;
    }
  }

  lemma {:induction false} SkipDelimiters(s: string, delim: string, i: nat, j: nat)
    requires i <= j <= |s| && forall k :: i <= k < j ==> s[k] in delim
    ensures Split(s[i..], delim) == Split(s[j..], delim)
    decreases j - i
  {
    if i < j {
      SplitNext(s, delim, i);
      SkipDelimiters(s, delim, i + 1, j);
    }
  }

  /** Any set of delimiters, the empty one included. */
  method SplitByCharacters(full: string, delim: string, before: seq<string>) returns (result: seq<string>)
    ensures result == before + Split(full, delim)
  {
    result := before;
    ghost var whole := before + Split(full, delim);
    var beginIndex := FindFirst(full, delim, false, 0);
    SkipDelimiters(full, delim, 0, beginIndex);
    assert full[0..] == full;
    while beginIndex < |full|
      invariant beginIndex <= |full|
      invariant beginIndex < |full| ==> full[beginIndex] !in delim
      invariant result + Split(full[beginIndex..], delim) == whole
      decreases |full| - beginIndex
    {
      var endIndex := FindFirst(full, delim, true, beginIndex);
      SplitPiece(result, full, delim, beginIndex, endIndex);
      result := result + [full[beginIndex..endIndex]];
      if endIndex == |full| {
        return;
      }
      beginIndex := FindFirst(full, delim, false, endIndex);
      SkipDelimiters(full, delim, endIndex, beginIndex);
    }
  }

  /** Both paths give the same list. */
  method SplitStringUsing(full: string, delim: string, before: seq<string>) returns (result: seq<string>)
    ensures result == before + Split(full, delim)
  {
    if |delim| == 1 {
      assert delim == [delim[0]];
      result := SplitByCharacter(full, delim[0], before);
    } else {
      result := SplitByCharacters(full, delim, before);
    }
  }

  // ----- What the pieces are

  /** The gaps and the pieces in turn. */
  function Weave(gaps: seq<string>, pieces: seq<string>): string
    requires |gaps| == |pieces| + 1
  {
    if pieces == [] then gaps[0] else gaps[0] + pieces[0] + Weave(gaps[1..], pieces[1..])
  }

  predicate Delimiters(gap: string, delim: string) {
    forall k :: 0 <= k < |gap| ==> gap[k] in delim
  }

  predicate Piece(piece: string, delim: string) {
    piece != "" && forall k :: 0 <= k < |piece| ==> piece[k] !in delim
  }

  /** The pieces are nonempty and free of delimiters, and what separates them in s are delimiters, at least one. */
  ghost predicate Separates(gaps: seq<string>, pieces: seq<string>, s: string, delim: string) {
    && |gaps| == |pieces| + 1 && Weave(gaps, pieces) == s
    && (forall i :: 0 <= i < |gaps| ==> Delimiters(gaps[i], delim))
    && (forall i :: 0 < i < |pieces| ==> gaps[i] != "")
    && (forall i :: 0 <= i < |pieces| ==> Piece(pieces[i], delim))
  }

  lemma SeparatesAfterDelimiter(gaps: seq<string>, pieces: seq<string>, s: string, delim: string)
    requires s != "" && s[0] in delim && Separates(gaps, pieces, s[1..], delim)
    ensures Separates([[s[0]] + gaps[0]] + gaps[1..], pieces, s, delim)
  {
    var gaps' := [[s[0]] + gaps[0]] + gaps[1..];
    assert gaps'[1..] == gaps[1..];
    assert Weave(gaps', pieces) == [s[0]] + Weave(gaps, pieces);
  }

  lemma PieceFirst(gaps: seq<string>, pieces: seq<string>, delim: string)
    requires |gaps| == |pieces| + 1 && gaps[0] == "" && pieces != [] && Piece(pieces[0], delim)
    ensures Weave(gaps, pieces) != "" && Weave(gaps, pieces)[0] !in delim
  {
  }

  lemma SeparatesAfterPiece(gaps: seq<string>, pieces: seq<string>, piece: string, rest: string, delim: string)
    requires Piece(piece, delim) && Separates(gaps, pieces, rest, delim) && (rest != "" ==> rest[0] in delim)
    ensures Separates([""] + gaps, [piece] + pieces, piece + rest, delim)
  {
    var gaps', pieces' := [""] + gaps, [piece] + pieces;
    assert gaps'[1..] == gaps && pieces'[1..] == pieces;
    assert Weave(gaps', pieces') == piece + rest;
    if pieces != [] && gaps[0] == "" {
      PieceFirst(gaps, pieces, delim);
    }
  }

  lemma {:induction false} SplitHasGaps(s: string, delim: string) returns (gaps: seq<string>)
    ensures Separates(gaps, Split(s, delim), s, delim)
    decreases |s|
  {
    if s == [] {
      gaps := [""];
    } else if s[0] in delim {
      gaps := SplitHasGaps(s[1..], delim);
      SeparatesAfterDelimiter(gaps, Split(s, delim), s, delim);
      gaps := [[s[0]] + gaps[0]] + gaps[1..];
    } else {
      var n := Run(s, delim);
      gaps := SplitHasGaps(s[n..], delim);
      assert Piece(s[..n], delim) && s == s[..n] + s[n..];
      SeparatesAfterPiece(gaps, Split(s[n..], delim), s[..n], s[n..], delim);
      gaps := [""] + gaps;
    }
  }

  /** What follows a piece begins with a delimiter, or is empty. */
  lemma AfterPiece(gaps: seq<string>, pieces: seq<string>, delim: string)
    requires |gaps| == |pieces| + 1 && Delimiters(gaps[0], delim) && (pieces != [] ==> gaps[0] != "")
    ensures Weave(gaps, pieces) != "" ==> Weave(gaps, pieces)[0] in delim
  {
  }

  lemma SplitFirst(gap: string, piece: string, rest: string, delim: string)
    requires Delimiters(gap, delim) && Piece(piece, delim) && (rest != "" ==> rest[0] in delim)
    ensures Split(gap + piece + rest, delim) == [piece] + Split(rest, delim)
  {
    var s, i, j := gap + piece + rest, |gap|, |gap| + |piece|;
    assert s[0..] == s && s[i..j] == piece && s[j..] == rest;
    SkipDelimiters(s, delim, 0, i);
    SplitRun(s, delim, i, j);
  }

  lemma {:induction false} SeparatedIsSplit(gaps: seq<string>, pieces: seq<string>, s: string, delim: string)
    requires Separates(gaps, pieces, s, delim)
    ensures Split(s, delim) == pieces
    decreases |pieces|
  {
    if pieces == [] {
      assert s[0..] == s && s[|s|..] == [];
      SkipDelimiters(s, delim, 0, |s|);
    } else {
      var rest := Weave(gaps[1..], pieces[1..]);
      AfterPiece(gaps[1..], pieces[1..], delim);
      SplitFirst(gaps[0], pieces[0], rest, delim);
      assert Separates(gaps[1..], pieces[1..], rest, delim);
      SeparatedIsSplit(gaps[1..], pieces[1..], rest, delim);
      assert pieces == [pieces[0]] + pieces[1..];
    }
  }

  /** For any set of delimiters: the result is the one list of maximal delimiter-free pieces that, with delimiters
      between and around them, make up the string. */
  lemma SplitIff(s: string, delim: string, pieces: seq<string>)
    ensures Split(s, delim) == pieces <==> exists gaps :: Separates(gaps, pieces, s, delim)
  {
    if Split(s, delim) == pieces {
      var gaps := SplitHasGaps(s, delim);
    }
    if gaps :| Separates(gaps, pieces, s, delim) {
      SeparatedIsSplit(gaps, pieces, s, delim);
    }
  }

  // ----- Joining

  function Join(components: seq<string>, delim: string): string {
    if components == [] then ""
    else if |components| == 1 then components[0]
    else components[0] + delim + Join(components[1..], delim)
  }

  lemma {:induction false} JoinOneMore(components: seq<string>, last: string, delim: string)
    ensures Join(components + [last], delim) == if components == [] then last else Join(components, delim) + delim + last
  {
    if |components| == 1 {
      assert (components + [last])[1..] == [last];
    } else if components != [] {
      assert (components + [last])[1..] == components[1..] + [last];
      JoinOneMore(components[1..], last, delim);
      assert components[0] + delim + (Join(components[1..], delim) + delim + last)
             == components[0] + delim + Join(components[1..], delim) + delim + last;
    }
  }

  method JoinStrings(components: seq<string>, delim: string) returns (result: string)
    ensures result == Join(components, delim)
  {
    result := "";
    var i := 0;
    while i < |components|
      invariant 0 <= i <= |components|
      invariant result == Join(components[..i], delim)
    {
      JoinOneMore(components[..i], components[i], delim);
      assert components[..i + 1] == components[..i] + [components[i]];
      if i != 0 {
        result := result + delim;
      }
      result := result + components[i];
      i := i + 1;
    }
    assert components[..i] == components;
  }

  function TotalLength(components: seq<string>): nat {
    if components == [] then 0 else |components[0]| + TotalLength(components[1..])
  }

  /** Each component and one delimiter for each gap; nothing for no components. */
  lemma {:induction false} JoinLength(components: seq<string>, delim: string)
    ensures |Join(components, delim)| ==
      TotalLength(components) + if components == [] then 0 else (|components| - 1) * |delim|
  {
    if 1 < |components| {
      JoinLength(components[1..], delim);
    } else if |components| == 1 {
      assert components[1..] == [];
    }
  }

  predicate HasAt(s: string, piece: string, at: nat) {
    at + |piece| <= |s| && forall i :: 0 <= i < |piece| ==> s[at + i] == piece[i]
  }

  lemma HasBehind(front: string, s: string, piece: string, at: nat)
    requires HasAt(s, piece, at)
    ensures HasAt(front + s, piece, |front| + at)
  {
  }

  /** Where the k-th component begins: behind the ones before it, each followed by a delimiter. */
  function Offset(components: seq<string>, delim: string, k: nat): nat
    requires k < |components|
  {
    if k == 0 then 0 else |components[0]| + |delim| + Offset(components[1..], delim, k - 1)
  }

  lemma {:induction false} OffsetIs(components: seq<string>, delim: string, k: nat)
    requires k < |components|
    ensures Offset(components, delim, k) == TotalLength(components[..k]) + k * |delim|
  {
    if k == 0 {
      assert components[..0] == [];
    } else {
      OffsetIs(components[1..], delim, k - 1);
      assert components[..k][1..] == components[1..][..k - 1];
    }
  }

  lemma JoinFirst(components: seq<string>, delim: string)
    requires components != []
    ensures HasAt(Join(components, delim), components[0], 0)
    ensures 1 < |components| ==> HasAt(Join(components, delim), delim, |components[0]|)
    ensures 1 < |components| ==> Join(components, delim) == (components[0] + delim) + Join(components[1..], delim)
  {
  }

  lemma NextOffset(components: seq<string>, delim: string, k: nat)
    requires 0 < k < |components|
    ensures Offset(components, delim, k) == |components[0] + delim| + Offset(components[1..], delim, k - 1)
    ensures components[1..][k - 1] == components[k]
  {
  }

  /** Every component is there in its place. */
  lemma {:induction false} JoinHolds(components: seq<string>, delim: string, k: nat)
    requires k < |components|
    ensures HasAt(Join(components, delim), components[k], Offset(components, delim, k))
  {
    JoinFirst(components, delim);
    if 0 < k {
      var tail, front := components[1..], components[0] + delim;
      var joined, at := Join(tail, delim), Offset(tail, delim, k - 1);
      JoinHolds(tail, delim, k - 1);
      NextOffset(components, delim, k);
      HasBehind(front, joined, tail[k - 1], at);
    }
  }

  /** Every component but the last is followed by the delimiter. */
  lemma {:induction false} JoinSeparates(components: seq<string>, delim: string, k: nat)
    requires k + 1 < |components|
    ensures HasAt(Join(components, delim), delim, Offset(components, delim, k) + |components[k]|)
  {
    JoinFirst(components, delim);
    if 0 < k {
      var tail, front := components[1..], components[0] + delim;
      var joined, at := Join(tail, delim), Offset(tail, delim, k - 1);
      JoinSeparates(tail, delim, k - 1);
      NextOffset(components, delim, k);
      HasBehind(front, joined, delim, at + |tail[k - 1]|);
    }
  }

  // ----- Splitting what was joined

  predicate Plain(component: string, c: char) {
    component != "" && c !in component
  }

  lemma {:induction false} SplitPiecesArePlain(s: string, c: char)
    ensures forall x <- Split(s, [c]) :: Plain(x, c)
    decreases |s|
  {
    if s != [] {
      if s[0] == c {
        SplitPiecesArePlain(s[1..], c);
      } else {
        SplitPiecesArePlain(s[Run(s, [c])..], c);
      }
    }
  }

  lemma SplitHead(head: string, c: char, rest: string)
    requires Plain(head, c)
    ensures Split(head + [c] + rest, [c]) == [head] + Split(rest, [c])
    ensures Split(head, [c]) == [head]
  {
    var s := head + [c] + rest;
    SplitRun(s, [c], 0, |head|);
    SplitNext(s, [c], |head|);
    assert s[0..] == s && s[0..|head|] == head && s[|head| + 1..] == rest;
    SplitRun(head, [c], 0, |head|);
    assert head[0..] == head && head[0..|head|] == head && head[|head|..] == [];
  }

  lemma {:induction false} SplitPlainJoin(v: seq<string>, c: char)
    requires forall x <- v :: Plain(x, c)
    ensures Split(Join(v, [c]), [c]) == v
  {
    if v != [] {
      assert v[0] in v;
      assert forall x <- v[1..] :: x in v;
      SplitPlainJoin(v[1..], c);
      SplitHead(v[0], c, Join(v[1..], [c]));
      assert v == [v[0]] + v[1..];
    }
  }

  /** Splitting undoes joining exactly for components that are nonempty and do not contain the delimiter. */
  lemma SplitJoinRoundTrip(v: seq<string>, c: char)
    ensures Split(Join(v, [c]), [c]) == v <==> forall x <- v :: Plain(x, c)
  {
    if forall x <- v :: Plain(x, c) {
      SplitPlainJoin(v, c);
    } else {
      SplitPiecesArePlain(Join(v, [c]), c);
    }
  }
}
