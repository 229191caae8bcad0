/** Splitting the arguments of a call at its top-level commas. */
module ArgumentSplitter {
  import opened Results

  predicate IsQuote(c: char) {
    c == '"' || c == '\'' || c == '`'
  }

  predicate IsOpener(c: char) {
    c == '(' || c == '[' || c == '{'
  }

  predicate IsCloser(c: char) {
    c == ')' || c == ']' || c == '}'
  }

  /** The characters that stripping removes. */
  predicate IsSpace(c: char) {
    || '\t' <= c <= '\r' || '\U{1C}' <= c <= ' ' || c == '\U{85}' || c == '\U{A0}' || c == '\U{1680}'
    || '\U{2000}' <= c <= '\U{200A}' || c == '\U{2028}' || c == '\U{2029}' || c == '\U{202F}'
    || c == '\U{205F}' || c == '\U{3000}'
  }

  function StripLeft(s: string): string {
    if s != [] && IsSpace(s[0]) then StripLeft(s[1..]) else s
  }

  function StripRight(s: string): string {
    if s != [] && IsSpace(s[|s| - 1]) then StripRight(s[..|s| - 1]) else s
  }

  function Strip(s: string): string {
    StripRight(StripLeft(s))
  }

  function StripAll(pieces: seq<string>): (r: seq<string>)
    ensures |r| == |pieces| && forall i :: 0 <= i < |r| ==> r[i] == Strip(pieces[i])
  {
    seq(|pieces|, i requires 0 <= i < |pieces| => Strip(pieces[i]))
  }

  predicate AllSpace(s: string) {
    forall i :: 0 <= i < |s| ==> IsSpace(s[i])
  }

  /** Neither begins nor ends with white space. */
  predicate Trimmed(s: string) {
    s == [] || (!IsSpace(s[0]) && !IsSpace(s[|s| - 1]))
  }

  lemma {:induction false} StripLeftParts(s: string) returns (left: string)
    ensures s == left + StripLeft(s) && AllSpace(left)
    ensures StripLeft(s) == [] || !IsSpace(StripLeft(s)[0])
    decreases s
  {
    left := [];
    if s != [] && IsSpace(s[0]) {
      var rest := StripLeftParts(s[1..]);
      left := [s[0]] + rest;
      assert s == [s[0]] + s[1..];
    }
  }

  lemma {:induction false} StripRightParts(s: string) returns (right: string)
    ensures s == StripRight(s) + right && AllSpace(right)
    ensures StripRight(s) == [] || !IsSpace(StripRight(s)[|StripRight(s)| - 1])
    decreases s
  {
    right := [];
    if s != [] && IsSpace(s[|s| - 1]) {
      var rest := StripRightParts(s[..|s| - 1]);
      right := rest + [s[|s| - 1]];
      assert s == s[..|s| - 1] + [s[|s| - 1]];
    }
  }

  /** Stripping takes white space off both ends, and all of it. */
  lemma StripParts(s: string) returns (left: string, right: string)
    ensures s == left + Strip(s) + right && AllSpace(left) && AllSpace(right) && Trimmed(Strip(s))
  {
    left := StripLeftParts(s);
    right := StripRightParts(StripLeft(s));
    if Strip(s) != [] {
      assert StripLeft(s)[0] == Strip(s)[0];
    }
    assert left + (Strip(s) + right) == left + Strip(s) + right;
  }

  lemma SpacesEnd(s: string, left: string, t: string, right: string, left': string)
    requires s == left + t + right && t != [] && Trimmed(t) && left' <= s && AllSpace(left')
    ensures |left'| <= |left|
  {
    assert s[|left|] == t[0];
  }

  lemma SameEdges(s: string, left: string, t: string, right: string, left': string, t': string, right': string)
    requires s == left + t + right == left' + t' + right'
    requires AllSpace(left) && AllSpace(right) && AllSpace(left') && AllSpace(right')
    requires t != [] && Trimmed(t) && t' != [] && Trimmed(t')
    ensures t == t'
  {
    SpacesEnd(s, left, t, right, left');
    SpacesEnd(s, left', t', right', left);
    assert s[|s| - 1 - |right|] == t[|t| - 1] && s[|s| - 1 - |right'|] == t'[|t'| - 1];
    assert t == s[|left|..|s| - |right|] == t';
  }

  lemma SpaceOnly(s: string, left: string, t: string, right: string)
    requires s == left + t + right && AllSpace(left) && AllSpace(right) && Trimmed(t)
    ensures AllSpace(s) <==> t == []
  {
    if t != [] {
      assert s[|left|] == t[0];
    }
  }

  /** No other text is left by taking white space off both ends until neither has any. */
  lemma StripIsDetermined(s: string, left: string, t: string, right: string)
    requires s == left + t + right && AllSpace(left) && AllSpace(right) && Trimmed(t)
    ensures Strip(s) == t
  {
    var left', right' := StripParts(s);
    var t' := Strip(s);
    SpaceOnly(s, left, t, right);
    SpaceOnly(s, left', t', right');
    if t != [] {
      SameEdges(s, left, t, right, left', t', right');
    }
  }

  // ----- One character at a time

  datatype Mode = Plain | Quoted(quote: char) | Escaped(quote: char)

  datatype State = State(depth: int, mode: Mode)

  const OUTSIDE := State(0, Plain)
  const TOP := State(1, Plain)

  /** The nesting after one more character. */
  function Next(s: State, c: char): State {
    match s.mode
    case Escaped(q) => s.(mode := Quoted(q))
    case Quoted(q) => if c == '\\' then s.(mode := Escaped(q)) else if c == q then s.(mode := Plain) else s
    case Plain =>
      if IsQuote(c) then s.(mode := Quoted(c))
      else if IsOpener(c) then s.(depth := s.depth + 1)
      else if IsCloser(c) then s.(depth := s.depth - 1)
      else s
  }

  function Run(s: State, text: string): State
    decreases text
  {
    if text == [] then s else Run(Next(s, text[0]), text[1..])
  }

  function PutLast(pieces: seq<string>, text: string): seq<string>
    requires pieces != []
  {
    pieces[..|pieces| - 1] + [pieces[|pieces| - 1] + text]
  }

  /** The pieces after one more character: a top-level comma starts a new piece, and a
      bracket that opens the call itself belongs to none. */
  function Put(s: State, pieces: seq<string>, c: char): seq<string>
    requires pieces != []
  {
    if s == TOP && c == ',' then pieces + [""]
    else if s.mode.Plain? && IsOpener(c) && s.depth <= 0 then pieces
    else PutLast(pieces, [c])
  }

  /** The pieces up to the bracket that closes the call, if there is one. */
  function Scan(s: State, pieces: seq<string>, rest: string): Option<seq<string>>
    requires pieces != []
    decreases rest
  {
    if rest == [] then None
    else if s == TOP && IsCloser(rest[0]) then Some(pieces)
    else Scan(Next(s, rest[0]), Put(s, pieces, rest[0]), rest[1..])
  }

  /** The arguments, not yet stripped, of the call whose bracket opens at `open`. */
  function Pieces(text: string, open: nat): Option<seq<string>> {
    if open < |text| then Scan(OUTSIDE, [""], text[open..]) else None
  }

  function Split(text: string, open: nat): Option<seq<string>> {
    var pieces := Pieces(text, open);
    if pieces.None? then None else Some(StripAll(pieces.value))
  }

  function ModeOf(quote: Option<char>): Mode {
    if quote.None? then Plain else Quoted(quote.value)
  }

  /** What the scan finds from position `i` on, with `front` the finished pieces and
      `current` the one under way. */
  function Remaining(s: State, front: seq<string>, current: string, text: string, i: nat): Option<seq<string>> {
    if i < |text| then Scan(s, front + [current], text[i..]) else None
  }

  /** `Remaining` in `text`, as a value. */
  type Rest = (State, seq<string>, string, nat) -> Option<seq<string>>

  ghost predicate IsRest(rest: Rest, text: string) {
    forall s, front, current, i: nat {:trigger Remaining(s, front, current, text, i)} ::
      rest(s, front, current, i) == Remaining(s, front, current, text, i)
  }

  lemma RestOf(text: string, open: nat) returns (rest: Rest)
    ensures IsRest(rest, text) && rest(OUTSIDE, [], "", open) == Pieces(text, open)
  {
    rest := (s, front, current, i: nat) => Remaining(s, front, current, text, i);
    var front: seq<string> := [];
    assert front + [""] == [""];
  }

  lemma RestAtEnd(rest: Rest, s: State, front: seq<string>, current: string, text: string, i: nat)
    requires IsRest(rest, text) && i >= |text|
    ensures rest(s, front, current, i) == None
  {
    assert Remaining(s, front, current, text, i) == None;
  }

  lemma StripSnoc(front: seq<string>, last: string)
    ensures StripAll(front + [last]) == StripAll(front) + [Strip(last)]
  {
  }

  /** One character of the scan, at position `i` of the text. */
  lemma StepAt(rest: Rest, s: State, front: seq<string>, current: string, text: string, i: nat)
    requires IsRest(rest, text) && i < |text|
    ensures rest(s, front, current, i)
         == if s == TOP && IsCloser(text[i]) then Some(front + [current])
            else if s == TOP && text[i] == ',' then rest(Next(s, text[i]), front + [current], "", i + 1)
            else if s.mode.Plain? && IsOpener(text[i]) && s.depth <= 0 then
              rest(Next(s, text[i]), front, current, i + 1)
            else rest(Next(s, text[i]), front, current + [text[i]], i + 1)
  {
    var (pieces, c, later, next) := (front + [current], text[i], text[i + 1..], Next(s, text[i]));
    assert text[i..][1..] == later;
    assert PutLast(pieces, [c]) == front + [current + [c]];
    assert rest(s, front, current, i) == Remaining(s, front, current, text, i);
    assert rest(next, pieces, "", i + 1) == Remaining(next, pieces, "", text, i + 1);
    assert rest(next, front, current, i + 1) == Remaining(next, front, current, text, i + 1);
    assert rest(next, front, current + [c], i + 1) == Remaining(next, front, current + [c], text, i + 1);
    if !(s == TOP && IsCloser(c)) {
      assert Remaining(s, front, current, text, i) == Scan(next, Put(s, pieces, c), later);
      assert i + 1 == |text| ==> later == [];
    }
  }

  /** The program's scanner. It keeps the open quote in `quote` and reads an escape together
      with the character it escapes. */
  method SplitArguments(text: string, openParen: nat) returns (r: Option<seq<string>>)
    ensures r == Split(text, openParen)
  {
    var depth := 0;
    var quote: Option<char> := None;
    var args: seq<string> := [];
    var current := "";
    var i := openParen;
    ghost var front: seq<string> := [];
    ghost var rest := RestOf(text, openParen);
    ghost var goal := Pieces(text, openParen);
    while i < |text|
      invariant args == StripAll(front) && (quote.Some? ==> IsQuote(quote.value))
      invariant goal == rest(State(depth, ModeOf(quote)), front, current, i)
      decreases |text| - i
    {
      var c := text[i];
      StepAt(rest, State(depth, ModeOf(quote)), front, current, text, i);
      if quote.Some? {
        current := current + [c];
        if c == '\\' && i + 1 < |text| {
          StepAt(rest, State(depth, Escaped(quote.value)), front, current, text, i + 1);
          current := current + [text[i + 1]];
          i := i + 2;
          continue;
        }
        if c == quote.value {
          quote := None;
        } else if c == '\\' {
          RestAtEnd(rest, State(depth, Escaped(quote.value)), front, current, text, i + 1);
          RestAtEnd(rest, State(depth, Quoted(quote.value)), front, current, text, i + 1);
        }
      } else if IsQuote(c) {
        quote := Some(c);
        current := current + [c];
      } else if IsOpener(c) {
        depth := depth + 1;
        if depth > 1 {
          current := current + [c];
        }
      } else if IsCloser(c) {
        depth := depth - 1;
        if depth == 0 {
          args := args + [Strip(current)];
          StripSnoc(front, current);
          return Some(args);
        }
        current := current + [c];
      } else if c == ',' && depth == 1 {
        args := args + [Strip(current)];
        StripSnoc(front, current);
        front := front + [current];
        current := "";
      } else {
        current := current + [c];
      }
      i := i + 1;
    }
    RestAtEnd(rest, State(depth, ModeOf(quote)), front, current, text, i);
    r := None;
  }

  function Front(pieces: seq<string>): seq<string>
    requires pieces != []
  {
    pieces[..|pieces| - 1]
  }

  function Last<T>(s: seq<T>): T
    requires s != []
  {
    s[|s| - 1]
  }

  lemma PutFrontAndLast(s: State, pieces: seq<string>, c: char)
    requires pieces != []
    ensures if s == TOP && c == ',' then Front(Put(s, pieces, c)) == pieces && Last(Put(s, pieces, c)) == ""
      else if s.mode.Plain? && IsOpener(c) && s.depth <= 0 then Put(s, pieces, c) == pieces
      else Front(Put(s, pieces, c)) == Front(pieces) && Last(Put(s, pieces, c)) == Last(pieces) + [c]
  {
  }

  // ----- Where the scan stops, and what it keeps

  /** `text[k]` is an unquoted closer that brings the depth back to 0. */
  ghost predicate ClosesAt(s: State, text: string, k: nat) {
    k < |text| && IsCloser(text[k]) && Run(s, text[..k]) == TOP
  }

  ghost predicate FirstClose(s: State, text: string, k: nat) {
    ClosesAt(s, text, k) && forall j: nat :: j < k ==> !ClosesAt(s, text, j)
  }

  function JoinWith(sep: string, pieces: seq<string>): string {
    if pieces == [] then "" else if |pieces| == 1 then pieces[0] else JoinWith(sep, Front(pieces)) + sep + Last(pieces)
  }

  /** Where, in the pieces joined by commas, the joining commas are. */
  function Boundaries(pieces: seq<string>): seq<nat> {
    if |pieces| <= 1 then [] else Boundaries(Front(pieces)) + [|JoinWith(",", Front(pieces))|]
  }

  /** The positions, counted from `base`, of the top-level commas of `text`. */
  function TopCommas(s: State, text: string, base: nat): seq<nat>
    decreases text
  {
    if text == [] then []
    else (if s == TOP && text[0] == ',' then [base] else []) + TopCommas(Next(s, text[0]), text[1..], base + 1)
  }

  lemma ClosesLater(s: State, text: string, k: nat)
    requires text != []
    ensures ClosesAt(s, text, k + 1) <==> ClosesAt(Next(s, text[0]), text[1..], k)
    ensures ClosesAt(s, text, 0) <==> s == TOP && IsCloser(text[0])
  {
    if k < |text| - 1 {
      assert text[..k + 1][1..] == text[1..][..k];
    }
    assert text[..0] == [];
  }

  lemma FirstClosesLater(s: State, text: string, k: nat)
    requires text != [] && !ClosesAt(s, text, 0) && FirstClose(Next(s, text[0]), text[1..], k)
    ensures FirstClose(s, text, k + 1)
  {
    ClosesLater(s, text, k);
    forall j: nat | j < k + 1
      ensures !ClosesAt(s, text, j)
    {
      if j > 0 {
        ClosesLater(s, text, j - 1);
      }
    }
  }

  /** The scan succeeds exactly when some unquoted closer brings the depth back to 0. */
  lemma {:induction false} ScanFindsClose(s: State, pieces: seq<string>, rest: string)
    requires pieces != []
    ensures Scan(s, pieces, rest).Some? <==> exists k: nat :: ClosesAt(s, rest, k)
    decreases rest
  {
    if rest != [] {
      ScanFindsClose(Next(s, rest[0]), Put(s, pieces, rest[0]), rest[1..]);
      ClosesLater(s, rest, 0);
      if k: nat :| ClosesAt(s, rest, k) {
        if k > 0 {
          ClosesLater(s, rest, k - 1);
        }
      }
      if k: nat :| ClosesAt(Next(s, rest[0]), rest[1..], k) {
        ClosesLater(s, rest, k);
      }
    }
  }

  lemma Regroup<T>(a: seq<T>, b: seq<T>, c: seq<T>)
    ensures (a + b) + c == a + (b + c)
  {
  }

  lemma JoinOfLongerLast(pieces: seq<string>, pieces': seq<string>, c: char)
    requires pieces != [] && pieces' != [] && Front(pieces') == Front(pieces) && Last(pieces') == Last(pieces) + [c]
    ensures JoinWith(",", pieces') == JoinWith(",", pieces) + [c] && Boundaries(pieces') == Boundaries(pieces)
  {
    assert |pieces'| == |pieces|;
    if |pieces| > 1 {
      Regroup(JoinWith(",", Front(pieces)) + ",", Last(pieces), [c]);
    }
  }

  lemma JoinOfNewLast(pieces: seq<string>, pieces': seq<string>)
    requires pieces != [] && pieces' != [] && Front(pieces') == pieces && Last(pieces') == ""
    ensures JoinWith(",", pieces') == JoinWith(",", pieces) + [',']
    ensures Boundaries(pieces') == Boundaries(pieces) + [|JoinWith(",", pieces)|]
  {
    assert |pieces'| == |pieces| + 1;
  }

  lemma JoinAfterPut(s: State, pieces: seq<string>, c: char)
    requires pieces != [] && s.depth >= 1
    ensures JoinWith(",", Put(s, pieces, c)) == JoinWith(",", pieces) + [c]
    ensures Boundaries(Put(s, pieces, c))
         == Boundaries(pieces) + if s == TOP && c == ',' then [|JoinWith(",", pieces)|] else []
  {
    PutFrontAndLast(s, pieces, c);
    if s == TOP && c == ',' {
      JoinOfNewLast(pieces, Put(s, pieces, c));
    } else {
      JoinOfLongerLast(pieces, Put(s, pieces, c), c);
    }
  }

  /** Inside the call, the scan stops at the first close and drops nothing. */
  lemma {:induction false} ScanDropsNothing(s: State, pieces: seq<string>, rest: string, out: seq<string>)
      returns (k: nat)
    requires pieces != [] && s.depth >= 1 && Scan(s, pieces, rest) == Some(out)
    ensures FirstClose(s, rest, k)
    ensures JoinWith(",", out) == JoinWith(",", pieces) + rest[..k]
    decreases rest
  {
    ClosesLater(s, rest, 0);
    if s == TOP && IsCloser(rest[0]) {
      k := 0;
      assert rest[..0] == [];
    } else {
      var c := rest[0];
      var j := ScanDropsNothing(Next(s, c), Put(s, pieces, c), rest[1..], out);
      k := j + 1;
      FirstClosesLater(s, rest, j);
      JoinAfterPut(s, pieces, c);
      assert rest[..k] == [c] + rest[1..][..j];
      Regroup(JoinWith(",", pieces), [c], rest[1..][..j]);
    }
  }

  lemma TopCommasOfCons(s: State, c: char, text: string, base: nat)
    ensures TopCommas(s, [c] + text, base)
         == (if s == TOP && c == ',' then [base] else []) + TopCommas(Next(s, c), text, base + 1)
  {
    assert ([c] + text)[1..] == text;
  }

  /** Inside the call, the scan cuts exactly at the top-level commas. */
  lemma {:induction false} ScanCutsAtCommas(s: State, pieces: seq<string>, rest: string, out: seq<string>, k: nat)
    requires pieces != [] && s.depth >= 1 && Scan(s, pieces, rest) == Some(out) && FirstClose(s, rest, k)
    ensures Boundaries(out) == Boundaries(pieces) + TopCommas(s, rest[..k], |JoinWith(",", pieces)|)
    decreases rest
  {
    ClosesLater(s, rest, 0);
    if k == 0 {
      assert rest[..0] == [];
    } else {
      var (c, later, base) := (rest[0], rest[1..], |JoinWith(",", pieces)|);
      forall j: nat
        ensures ClosesAt(s, rest, j + 1) <==> ClosesAt(Next(s, c), later, j)
      {
        ClosesLater(s, rest, j);
      }
      assert ClosesAt(s, rest, k - 1 + 1);
      JoinAfterPut(s, pieces, c);
      ScanCutsAtCommas(Next(s, c), Put(s, pieces, c), later, out, k - 1);
      assert rest[..k] == [c] + later[..k - 1];
      TopCommasOfCons(s, c, later[..k - 1], base);
      Regroup(Boundaries(pieces), if s == TOP && c == ',' then [base] else [],
        TopCommas(Next(s, c), later[..k - 1], base + 1));
    }
  }

  /** From the bracket on, the scan is at the top level of the call. */
  lemma OpenerStarts(text: string, open: nat)
    requires open < |text| && IsOpener(text[open])
    ensures Pieces(text, open) == Scan(TOP, [""], text[open + 1..])
  {
    assert text[open..][1..] == text[open + 1..];
  }

  /** Lossless: joined by commas, the pieces are exactly the text between the opening bracket
      and the first close, and the joining commas are exactly its top-level commas. */
  lemma SplitIsLossless(text: string, open: nat) returns (close: nat)
    requires open < |text| && IsOpener(text[open]) && Split(text, open).Some?
    ensures open < close < |text| && FirstClose(TOP, text[open + 1..], close - open - 1)
    ensures Split(text, open) == Some(StripAll(Pieces(text, open).value))
    ensures JoinWith(",", Pieces(text, open).value) == text[open + 1..close]
    ensures Boundaries(Pieces(text, open).value) == TopCommas(TOP, text[open + 1..close], 0)
  {
    OpenerStarts(text, open);
    var k := ScanDropsNothing(TOP, [""], text[open + 1..], Pieces(text, open).value);
    ScanCutsAtCommas(TOP, [""], text[open + 1..], Pieces(text, open).value, k);
    close := open + 1 + k;
    assert text[open + 1..][..k] == text[open + 1..close];
  }

  /** A call is split exactly when it is closed. */
  lemma SplitIffClosed(text: string, open: nat)
    requires open < |text|
    ensures Split(text, open).Some? <==> exists k: nat :: ClosesAt(OUTSIDE, text[open..], k)
  {
    ScanFindsClose(OUTSIDE, [""], text[open..]);
  }

  lemma {:induction false} BoundaryCount(pieces: seq<string>)
    requires pieces != []
    ensures |Boundaries(pieces)| == |pieces| - 1
    decreases |pieces|
  {
    if |pieces| > 1 {
      BoundaryCount(Front(pieces));
    }
  }

  /** The joined text and the places of its joining commas determine the pieces. */
  lemma {:induction false} PiecesAreDetermined(p: seq<string>, q: seq<string>)
    requires p != [] && q != []
    requires JoinWith(",", p) == JoinWith(",", q) && Boundaries(p) == Boundaries(q)
    ensures p == q
    decreases |p|
  {
    BoundaryCount(p);
    BoundaryCount(q);
    if |p| > 1 {
      var (bp, bq, joined) := (Boundaries(p), Boundaries(q), JoinWith(",", p));
      assert bp[|bp| - 1] == |JoinWith(",", Front(p))| && bq[|bq| - 1] == |JoinWith(",", Front(q))|;
      var b := bp[|bp| - 1];
      assert JoinWith(",", Front(p)) == joined[..b] == JoinWith(",", Front(q));
      assert Last(p) == joined[b + 1..] == Last(q);
      assert Boundaries(Front(p)) == bp[..|bp| - 1] == Boundaries(Front(q));
      PiecesAreDetermined(Front(p), Front(q));
      assert p == Front(p) + [Last(p)] && q == Front(q) + [Last(q)];
    }
  }

  // ----- Printing and splitting again

  /** The character would end the current argument. */
  predicate Ends(s: State, c: char) {
    s == TOP && (c == ',' || IsCloser(c))
  }

  predicate Unbroken(s: State, text: string)
    decreases text
  {
    text == [] || (!Ends(s, text[0]) && Unbroken(Next(s, text[0]), text[1..]))
  }

  /** Quotes closed, brackets balanced, commas only inside quotes or brackets. */
  predicate WellFormed(arg: string) {
    Unbroken(TOP, arg) && Run(TOP, arg) == TOP
  }

  lemma {:induction false} RunConcat(s: State, a: string, b: string)
    ensures Run(s, a + b) == Run(Run(s, a), b)
    ensures Unbroken(s, a + b) <==> Unbroken(s, a) && Unbroken(Run(s, a), b)
    decreases a
  {
    if a == [] {
      assert a + b == b;
    } else {
      assert (a + b)[1..] == a[1..] + b;
      RunConcat(Next(s, a[0]), a[1..], b);
    }
  }

  lemma PutTwice(pieces: seq<string>, a: string, b: string)
    requires pieces != []
    ensures PutLast(PutLast(pieces, a), b) == PutLast(pieces, a + b)
  {
    assert Last(pieces) + a + b == Last(pieces) + (a + b);
  }

  /** Text that ends no argument goes into the current piece. */
  lemma {:induction false} ScanUnbroken(s: State, pieces: seq<string>, a: string, rest: string)
    requires pieces != [] && s.depth >= 1 && Unbroken(s, a)
    ensures Scan(s, pieces, a + rest) == Scan(Run(s, a), PutLast(pieces, a), rest)
    decreases a
  {
    if a == [] {
      assert a + rest == rest && Last(pieces) + a == Last(pieces);
      assert PutLast(pieces, a) == pieces;
    } else {
      assert (a + rest)[1..] == a[1..] + rest;
      ScanUnbroken(Next(s, a[0]), Put(s, pieces, a[0]), a[1..], rest);
      PutTwice(pieces, [a[0]], a[1..]);
      assert [a[0]] + a[1..] == a;
    }
  }

  /** The raw pieces of printed arguments: all but the first start with the space after the comma. */
  function Spaced(args: seq<string>): (pieces: seq<string>)
    ensures args != [] ==> pieces != []
  {
    if |args| <= 1 then args else Spaced(Front(args)) + [" " + Last(args)]
  }

  lemma ScanNext(pieces: seq<string>, arg: string, rest: string)
    requires pieces != [] && WellFormed(arg)
    ensures Scan(TOP, pieces, "," + (arg + rest)) == Scan(TOP, pieces + [arg], rest)
  {
    var (tail, started) := ("," + (arg + rest), pieces + [""]);
    assert tail[0] == ',' && tail[1..] == arg + rest;
    assert Scan(TOP, pieces, tail) == Scan(TOP, started, arg + rest);
    ScanUnbroken(TOP, started, arg, rest);
    assert Last(started) + arg == arg && PutLast(started, arg) == pieces + [arg];
  }

  lemma {:induction false} ScanJoined(args: seq<string>, rest: string)
    requires args != [] && forall i :: 0 <= i < |args| ==> WellFormed(args[i])
    ensures Scan(TOP, [""], JoinWith(",", args) + rest) == Scan(TOP, args, rest)
    decreases |args|
  {
    var last := Last(args);
    if |args| == 1 {
      ScanUnbroken(TOP, [""], last, rest);
      assert "" + last == last;
      assert PutLast([""], last) == [last] == args;
    } else {
      var tail := "," + (last + rest);
      assert JoinWith(",", args) + rest == JoinWith(",", Front(args)) + tail;
      ScanJoined(Front(args), tail);
      ScanNext(Front(args), last, rest);
      assert args == Front(args) + [last];
    }
  }

  lemma {:induction false} SpacedJoin(args: seq<string>)
    requires args != []
    ensures JoinWith(",", Spaced(args)) == JoinWith(", ", args)
    decreases |args|
  {
    if |args| > 1 {
      SpacedJoin(Front(args));
      assert Front(Spaced(args)) == Spaced(Front(args));
      assert "," + (" " + Last(args)) == ", " + Last(args);
    }
  }

  lemma SpaceBefore(arg: string)
    requires WellFormed(arg)
    ensures WellFormed(" " + arg)
  {
    assert (" " + arg)[1..] == arg;
  }

  lemma {:induction false} SpacedIsWellFormed(args: seq<string>)
    requires args != [] && forall i :: 0 <= i < |args| ==> WellFormed(args[i])
    ensures |Spaced(args)| == |args| && forall i :: 0 <= i < |args| ==> WellFormed(Spaced(args)[i])
    decreases |args|
  {
    if |args| > 1 {
      SpacedIsWellFormed(Front(args));
      SpaceBefore(Last(args));
    }
  }

  lemma StripOfTrimmed(arg: string)
    requires Trimmed(arg)
    ensures Strip(arg) == arg && Strip(" " + arg) == arg
  {
    StripIsDetermined(arg, "", arg, "");
    StripIsDetermined(" " + arg, " ", arg, "");
  }

  lemma {:induction false} StripSpaced(args: seq<string>)
    requires args != [] && forall i :: 0 <= i < |args| ==> Trimmed(args[i])
    ensures StripAll(Spaced(args)) == args
    decreases |args|
  {
    StripOfTrimmed(Last(args));
    if |args| > 1 {
      StripSpaced(Front(args));
      StripSnoc(Spaced(Front(args)), " " + Last(args));
    }
  }

  function PrintCall(args: seq<string>): string {
    "(" + JoinWith(", ", args) + ")"
  }

  lemma CallInText(before: string, joined: string, tail: string, text: string)
    requires text == before + ("(" + joined + ")") + tail
    ensures |before| < |text| && text[|before|] == '(' && text[|before| + 1..] == joined + (")" + tail)
  {
  }

  /** Splitting undoes printing, whatever comes before and after the call. */
  lemma SplitUndoesPrint(before: string, args: seq<string>, tail: string)
    requires args != [] && forall i :: 0 <= i < |args| ==> WellFormed(args[i]) && Trimmed(args[i])
    ensures Split(before + PrintCall(args) + tail, |before|) == Some(args)
  {
    var text := before + PrintCall(args) + tail;
    CallInText(before, JoinWith(", ", args), tail, text);
    OpenerStarts(text, |before|);
    SpacedIsWellFormed(args);
    SpacedJoin(args);
    ScanJoined(Spaced(args), ")" + tail);
    StripSpaced(args);
  }

  // ----- Exactly which argument lists come out

  predicate Clean(arg: string) {
    WellFormed(arg) && Trimmed(arg)
  }

  /** The finished pieces are well formed, and the current one has led to the state `s`. */
  ghost predicate Underway(s: State, pieces: seq<string>) {
    && pieces != [] && s.depth >= 1
    && (forall i :: 0 <= i < |pieces| - 1 ==> WellFormed(pieces[i]))
    && Unbroken(TOP, Last(pieces)) && Run(TOP, Last(pieces)) == s
  }

  lemma {:induction false} PiecesAreWellFormed(s: State, pieces: seq<string>, rest: string, out: seq<string>)
    requires Underway(s, pieces) && Scan(s, pieces, rest) == Some(out)
    ensures out != [] && forall i :: 0 <= i < |out| ==> WellFormed(out[i])
    decreases rest
  {
    if s != TOP || !IsCloser(rest[0]) {
      var c := rest[0];
      PutFrontAndLast(s, pieces, c);
      if s == TOP && c == ',' {
        assert Underway(Next(s, c), pieces + [""]);
      } else {
        RunConcat(TOP, Last(pieces), [c]);
        assert [c][1..] == [];
        assert forall i :: 0 <= i < |pieces| - 1 ==> PutLast(pieces, [c])[i] == pieces[i];
      }
      PiecesAreWellFormed(Next(s, c), Put(s, pieces, c), rest[1..], out);
    }
  }

  lemma {:induction false} StripLeftKeeps(a: string)
    requires WellFormed(a)
    ensures WellFormed(StripLeft(a)) && (StripLeft(a) == [] || !IsSpace(StripLeft(a)[0]))
    decreases a
  {
    if a != [] && IsSpace(a[0]) {
      StripLeftKeeps(a[1..]);
    }
  }

  predicate QuoteIsQuote(s: State) {
    s.mode.Plain? || IsQuote(s.mode.quote)
  }

  lemma {:induction false} RunKeepsQuote(s: State, text: string)
    requires QuoteIsQuote(s)
    ensures QuoteIsQuote(Run(s, text))
    decreases text
  {
    if text != [] {
      RunKeepsQuote(Next(s, text[0]), text[1..]);
    }
  }

  /** White space closes no quote and no escape: it leads to the top level only from there. */
  lemma SpaceIsInert(s: State, c: char)
    requires IsSpace(c) && QuoteIsQuote(s) && Next(s, c) == TOP
    ensures s == TOP
  {
  }

  lemma {:induction false} StripRightKeeps(a: string)
    requires WellFormed(a)
    ensures WellFormed(StripRight(a)) && (StripRight(a) == [] || !IsSpace(Last(StripRight(a))))
    ensures StripRight(a) <= a
    decreases a
  {
    if a != [] && IsSpace(a[|a| - 1]) {
      var (front, c) := (a[..|a| - 1], a[|a| - 1]);
      assert a == front + [c] && [c][1..] == [];
      RunConcat(TOP, front, [c]);
      RunKeepsQuote(TOP, front);
      SpaceIsInert(Run(TOP, front), c);
      StripRightKeeps(front);
    }
  }

  lemma StripCleans(a: string)
    requires WellFormed(a)
    ensures Clean(Strip(a))
  {
    StripLeftKeeps(a);
    StripRightKeeps(StripLeft(a));
    var left, right := StripParts(a);
  }

  /** The arguments of any call are clean, and printing and splitting them again changes nothing. */
  lemma ResultsAreClean(text: string, open: nat, args: seq<string>)
    requires open < |text| && IsOpener(text[open]) && Split(text, open) == Some(args)
    ensures args != [] && forall i :: 0 <= i < |args| ==> Clean(args[i])
    ensures Split(PrintCall(args), 0) == Some(args)
  {
    OpenerStarts(text, open);
    var pieces := Pieces(text, open).value;
    PiecesAreWellFormed(TOP, [""], text[open + 1..], pieces);
    forall i | 0 <= i < |args|
      ensures Clean(args[i])
    {
      StripCleans(pieces[i]);
    }
    SplitUndoesPrint("", args, "");
    assert "" + PrintCall(args) + "" == PrintCall(args);
  }

  /** The results of splitting a call are exactly the non-empty lists of clean arguments. */
  lemma ResultsAreExact(args: seq<string>)
    ensures (exists text: string, open: nat :: open < |text| && IsOpener(text[open]) && Split(text, open) == Some(args))
       <==> (args != [] && forall i :: 0 <= i < |args| ==> Clean(args[i]))
  {
    if text: string, open: nat :| open < |text| && IsOpener(text[open]) && Split(text, open) == Some(args) {
      ResultsAreClean(text, open, args);
    }
    if args != [] && forall i :: 0 <= i < |args| ==> Clean(args[i]) {
      SplitUndoesPrint("", args, "");
      assert "" + PrintCall(args) + "" == PrintCall(args);
      assert IsOpener(PrintCall(args)[0]) && Split(PrintCall(args), 0) == Some(args);
    }
  }

  // ----- Arguments as syntax trees

  datatype Item =
    | Atom(c: char)
    | Literal(quote: char, body: seq<QuotedChar>)
    | Group(opener: char, inner: seq<Item>, closer: char)

  datatype QuotedChar = Bare(c: char) | Escape(c: char)

  predicate ValidBody(quote: char, body: seq<QuotedChar>) {
    forall b :: b in body && b.Bare? ==> b.c != quote && b.c != '\\'
  }

  /** Atoms are no quotes or brackets; a comma may only stand inside a group. */
  predicate ValidItem(item: Item, inGroup: bool) {
    match item
    case Atom(c) => c !in "\"'`([{)]}" && (inGroup || c != ',')
    case Literal(q, body) => q in "\"'`" && ValidBody(q, body)
    case Group(o, inner, c) => o in "([{" && c in ")]}" && Valid(inner, true)
  }

  predicate Valid(items: seq<Item>, inGroup: bool) {
    items == [] || (ValidItem(items[0], inGroup) && Valid(items[1..], inGroup))
  }

  function ShowBody(body: seq<QuotedChar>): string {
    if body == [] then "" else (if body[0].Bare? then [body[0].c] else ['\\', body[0].c]) + ShowBody(body[1..])
  }

  function ShowItem(item: Item): string {
    match item
    case Atom(c) => [c]
    case Literal(q, body) => [q] + ShowBody(body) + [q]
    case Group(o, inner, c) => [o] + Show(inner) + [c]
  }

  function Show(items: seq<Item>): string {
    if items == [] then "" else ShowItem(items[0]) + Show(items[1..])
  }

  lemma {:induction false} BodyStaysQuoted(depth: int, q: char, body: seq<QuotedChar>)
    requires IsQuote(q) && ValidBody(q, body)
    ensures Run(State(depth, Quoted(q)), ShowBody(body)) == State(depth, Quoted(q))
    ensures Unbroken(State(depth, Quoted(q)), ShowBody(body))
    decreases body
  {
    if body != [] {
      var (s, b) := (State(depth, Quoted(q)), body[0]);
      BodyStaysQuoted(depth, q, body[1..]);
      assert b in body;
      if b.Bare? {
        assert [b.c][1..] == [];
        RunConcat(s, [b.c], ShowBody(body[1..]));
      } else {
        assert ['\\', b.c][1..] == [b.c] && [b.c][1..] == [];
        assert Run(State(depth, Escaped(q)), [b.c]) == s;
        RunConcat(s, ['\\', b.c], ShowBody(body[1..]));
      }
    }
  }

  lemma Surrounded(s: State, t: State, a: char, text: string, b: char)
    requires Next(s, a) == t && Run(t, text) == t && Next(t, b) == s
    requires !Ends(s, a) && Unbroken(t, text) && !Ends(t, b)
    ensures Run(s, [a] + text + [b]) == s && Unbroken(s, [a] + text + [b])
  {
    assert [a][1..] == [] && [b][1..] == [];
    RunConcat(t, text, [b]);
    RunConcat(s, [a], text + [b]);
    assert [a] + text + [b] == [a] + (text + [b]);
  }

  lemma LiteralIsBalanced(depth: int, q: char, body: seq<QuotedChar>, shown: string)
    requires IsQuote(q) && ValidBody(q, body) && shown == [q] + ShowBody(body) + [q]
    ensures Run(State(depth, Plain), shown) == State(depth, Plain) && Unbroken(State(depth, Plain), shown)
  {
    BodyStaysQuoted(depth, q, body);
    Surrounded(State(depth, Plain), State(depth, Quoted(q)), q, ShowBody(body), q);
  }

  lemma AtomIsBalanced(depth: int, c: char)
    requires depth >= 1 && ValidItem(Atom(c), depth > 1)
    ensures Run(State(depth, Plain), [c]) == State(depth, Plain) && Unbroken(State(depth, Plain), [c])
  {
    assert [c][1..] == [];
  }

  /** Shown items leave the nesting as they found it and end no argument. */
  lemma {:induction false} ItemIsBalanced(depth: int, item: Item, shown: string)
    requires depth >= 1 && ValidItem(item, depth > 1) && shown == ShowItem(item)
    ensures Run(State(depth, Plain), shown) == State(depth, Plain) && Unbroken(State(depth, Plain), shown)
    decreases item
  {
    match item {
      case Atom(c) =>
        AtomIsBalanced(depth, c);
      case Literal(q, body) =>
        LiteralIsBalanced(depth, q, body, shown);
      case Group(o, inner, c) =>
        ShownIsBalanced(depth + 1, inner);
        Surrounded(State(depth, Plain), State(depth + 1, Plain), o, Show(inner), c);
    }
  }

  lemma {:induction false} ShownIsBalanced(depth: int, items: seq<Item>)
    requires depth >= 1 && Valid(items, depth > 1)
    ensures Run(State(depth, Plain), Show(items)) == State(depth, Plain)
    ensures Unbroken(State(depth, Plain), Show(items))
    decreases items
  {
    if items != [] {
      ItemIsBalanced(depth, items[0], ShowItem(items[0]));
      ShownIsBalanced(depth, items[1..]);
      RunConcat(State(depth, Plain), ShowItem(items[0]), Show(items[1..]));
    }
  }

  /** Printing syntax trees as arguments and splitting the call gives the printed trees back. */
  lemma SplitUndoesShow(before: string, trees: seq<seq<Item>>, args: seq<string>, tail: string)
    requires trees != [] && |args| == |trees|
    requires forall i :: 0 <= i < |trees| ==> Valid(trees[i], false) && args[i] == Show(trees[i]) && Trimmed(args[i])
    ensures Split(before + PrintCall(args) + tail, |before|) == Some(args)
  {
    forall i | 0 <= i < |args|
      ensures WellFormed(args[i])
    {
      ShownIsBalanced(1, trees[i]);
    }
    SplitUndoesPrint(before, args, tail);
  }

  // ----- Every call is the print of some syntax trees

  lemma SpecialCharacters(c: char)
    ensures IsQuote(c) <==> c in "\"'`"
    ensures IsOpener(c) <==> c in "([{"
    ensures IsCloser(c) <==> c in ")]}"
  {
  }

  /** Reads a literal up to its closing quote. */
  lemma {:induction false} ParseBody(depth: int, q: char, text: string) returns (body: seq<QuotedChar>, rest: string)
    requires Run(State(depth, Quoted(q)), text) == TOP && Unbroken(State(depth, Quoted(q)), text) && q != '\\'
    ensures text == ShowBody(body) + [q] + rest && ValidBody(q, body)
    ensures Run(State(depth, Plain), rest) == TOP && Unbroken(State(depth, Plain), rest)
    decreases |text|
  {
    var c := text[0];
    if c == q {
      body, rest := [], text[1..];
    } else if c == '\\' {
      assert Run(State(depth, Escaped(q)), text[1..]) == TOP;
      assert text[1..] != [];
      var later: seq<QuotedChar>;
      assert text[1..][1..] == text[2..];
      later, rest := ParseBody(depth, q, text[2..]);
      body := [Escape(text[1])] + later;
    } else {
      var later: seq<QuotedChar>;
      later, rest := ParseBody(depth, q, text[1..]);
      body := [Bare(c)] + later;
    }
  }

  lemma ShowCons(item: Item, items: seq<Item>)
    ensures Show([item] + items) == ShowItem(item) + Show(items)
  {
  }

  lemma RunShown(depth: int, items: seq<Item>, rest: string)
    requires depth >= 1 && Valid(items, depth > 1)
    ensures Run(State(depth, Plain), Show(items) + rest) == Run(State(depth, Plain), rest)
    ensures Unbroken(State(depth, Plain), Show(items) + rest) <==> Unbroken(State(depth, Plain), rest)
  {
    ShownIsBalanced(depth, items);
    RunConcat(State(depth, Plain), Show(items), rest);
  }

  /** Reads items until the group they stand in is closed, or to the end at the top level. */
  lemma {:induction false} Parse(depth: int, text: string) returns (items: seq<Item>, rest: string)
    requires depth >= 1 && Run(State(depth, Plain), text) == TOP && Unbroken(State(depth, Plain), text)
    ensures text == Show(items) + rest && Valid(items, depth > 1)
    ensures if depth == 1 then rest == [] else rest != [] && IsCloser(rest[0])
    decreases |text|
  {
    if text == [] {
      items, rest := [], [];
    } else {
      var c := text[0];
      SpecialCharacters(c);
      if IsCloser(c) {
        items, rest := [], text;
      } else {
        var item, after := ParseItem(depth, text);
        var later: seq<Item>;
        later, rest := Parse(depth, after);
        items := [item] + later;
        ShowCons(item, later);
        assert ShowItem(item) + (Show(later) + rest) == ShowItem(item) + Show(later) + rest;
      }
    }
  }

  lemma {:induction false} ParseItem(depth: int, text: string) returns (item: Item, after: string)
    requires depth >= 1 && Run(State(depth, Plain), text) == TOP && Unbroken(State(depth, Plain), text)
    requires text != [] && !IsCloser(text[0])
    ensures text == ShowItem(item) + after && ValidItem(item, depth > 1) && |after| < |text|
    ensures Run(State(depth, Plain), after) == TOP && Unbroken(State(depth, Plain), after)
    decreases |text|, 0
  {
    var (c, later) := (text[0], text[1..]);
    SpecialCharacters(c);
    if IsQuote(c) {
      var body: seq<QuotedChar>;
      body, after := ParseBody(depth, c, later);
      item := Literal(c, body);
      assert text == [c] + later;
      assert [c] + (ShowBody(body) + [c] + after) == [c] + ShowBody(body) + [c] + after;
    } else if IsOpener(c) {
      var inner, rest := Parse(depth + 1, later);
      SpecialCharacters(rest[0]);
      RunShown(depth + 1, inner, rest);
      after := rest[1..];
      item := Group(c, inner, rest[0]);
      assert text == [c] + later && rest == [rest[0]] + after;
      assert [c] + (Show(inner) + ([rest[0]] + after)) == [c] + Show(inner) + [rest[0]] + after;
    } else {
      item, after := Atom(c), later;
      assert text == [c] + later;
    }
  }

  /** Well-formed arguments are exactly the printed syntax trees. */
  lemma WellFormedIsShown(arg: string)
    ensures WellFormed(arg) <==> exists items :: Valid(items, false) && arg == Show(items)
  {
    if WellFormed(arg) {
      var items, rest := Parse(1, arg);
      assert arg == Show(items);
    }
    if items :| Valid(items, false) && arg == Show(items) {
      ShownIsBalanced(1, items);
    }
  }

  function Shows(trees: seq<seq<Item>>): (args: seq<string>)
    ensures |args| == |trees| && forall i :: 0 <= i < |trees| ==> args[i] == Show(trees[i])
  {
    seq(|trees|, i requires 0 <= i < |trees| => Show(trees[i]))
  }

  /** From the bracket at `open` on, the text is a call of the printed arguments `trees`, closed
      by `closer` and followed by `tail`. */
  ghost predicate IsCall(text: string, open: nat, trees: seq<seq<Item>>, closer: char, tail: string) {
    && open < |text| && text[open] in "([{" && closer in ")]}"
    && trees != [] && (forall i :: 0 <= i < |trees| ==> Valid(trees[i], false))
    && text[open + 1..] == JoinWith(",", Shows(trees)) + ([closer] + tail)
  }

  lemma CallSplits(text: string, open: nat, trees: seq<seq<Item>>, closer: char, tail: string)
    requires IsCall(text, open, trees, closer, tail)
    ensures Split(text, open) == Some(StripAll(Shows(trees)))
  {
    SpecialCharacters(text[open]);
    SpecialCharacters(closer);
    forall i | 0 <= i < |trees|
      ensures WellFormed(Shows(trees)[i])
    {
      ShownIsBalanced(1, trees[i]);
    }
    OpenerStarts(text, open);
    ScanJoined(Shows(trees), [closer] + tail);
  }

  lemma {:induction false} TreesOf(pieces: seq<string>) returns (trees: seq<seq<Item>>)
    requires forall i :: 0 <= i < |pieces| ==> WellFormed(pieces[i])
    ensures |trees| == |pieces| && Shows(trees) == pieces && forall i :: 0 <= i < |trees| ==> Valid(trees[i], false)
    decreases |pieces|
  {
    trees := [];
    if pieces != [] {
      var front := TreesOf(Front(pieces));
      var last, rest := Parse(1, Last(pieces));
      assert Show(last) + rest == Show(last);
      trees := front + [last];
      assert pieces == Front(pieces) + [Last(pieces)] && Shows(trees) == Shows(front) + [Show(last)];
    }
  }

  lemma CutAt(text: string, k: nat)
    requires k < |text|
    ensures text == text[..k] + ([text[k]] + text[k + 1..])
  {
  }

  lemma SplitReadsCall(text: string, open: nat) returns (trees: seq<seq<Item>>, closer: char, tail: string)
    requires open < |text| && text[open] in "([{" && Split(text, open).Some?
    ensures IsCall(text, open, trees, closer, tail)
  {
    SpecialCharacters(text[open]);
    var later := text[open + 1..];
    OpenerStarts(text, open);
    var pieces := Pieces(text, open).value;
    PiecesAreWellFormed(TOP, [""], later, pieces);
    var k := ScanDropsNothing(TOP, [""], later, pieces);
    trees := TreesOf(pieces);
    closer, tail := later[k], later[k + 1..];
    SpecialCharacters(closer);
    CutAt(later, k);
  }

  /** What splitting means: its results are the stripped arguments of the call that starts at
      the bracket, as the grammar reads it, and it fails if there is no such call. */
  lemma SplitReadsGrammar(text: string, open: nat, args: seq<string>)
    requires open < |text| && text[open] in "([{"
    ensures Split(text, open) == Some(args)
       <==> exists trees, closer, tail :: IsCall(text, open, trees, closer, tail) && args == StripAll(Shows(trees))
  {
    if Split(text, open) == Some(args) {
      var trees, closer, tail := SplitReadsCall(text, open);
      CallSplits(text, open, trees, closer, tail);
    }
    if trees, closer, tail :| IsCall(text, open, trees, closer, tail) && args == StripAll(Shows(trees)) {
      CallSplits(text, open, trees, closer, tail);
    }
  }

  lemma StripOne(c: char)
    ensures StripAll([[c]]) == [if IsSpace(c) then "" else [c]]
  {
    if IsSpace(c) {
      StripIsDetermined([c], [c], "", "");
    } else {
      StripIsDetermined([c], "", [c], "");
    }
  }

  lemma AtomAlone(c: char)
    requires c !in "\"'`([{)]},"
    ensures Valid([Atom(c)], false) && Show([Atom(c)]) == [c]
  {
    var items := [Atom(c)];
    assert items[0] == Atom(c) && items[1..] == [];
    assert Valid([], false) && ValidItem(Atom(c), false);
    assert Show([]) == "" && ShowItem(Atom(c)) + "" == [c];
  }

  /** The characters stripped are exactly Unicode's white space and the separators 28 to 31. */
  lemma OnlySpaceVanishes(c: char)
    requires c !in "\"'`([{)]},"
    ensures Split("(" + [c] + ")", 0) == Some([""])
       <==> c as int in {9, 10, 11, 12, 13, 28, 29, 30, 31, 32, 133, 160, 5760, 8192, 8193, 8194, 8195, 8196, 8197,
                         8198, 8199, 8200, 8201, 8202, 8232, 8233, 8239, 8287, 12288}
  {
    var (text, trees) := ("(" + [c] + ")", [[Atom(c)]]);
    AtomAlone(c);
    assert Shows(trees) == [[c]] && JoinWith(",", [[c]]) == [c];
    assert text[1..] == [c] + ([')'] + "");
    CallSplits(text, 0, trees, ')', "");
    StripOne(c);
  }
}
