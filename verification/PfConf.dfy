/**
The edits the kill switch makes to the packet filter's main configuration file:
the anchor reference it appends when it is enabled, and the clean-up when it is disabled.
*/
module PfConf {
  const MARKER := "# HPN VPN Kill Switch"

  function AnchorLine(name: string): string { "anchor \"" + name + "\"" }

  function LoadLine(name: string, file: string): string { "load anchor \"" + name + "\" from \"" + file + "\"" }

  ghost predicate Occurs(s: string, sub: string, i: nat) { i + |sub| <= |s| && s[i..i + |sub|] == sub }

  /** `str::contains`, by search from the left. */
  predicate Contains(s: string, sub: string) {
    sub <= s || (s != [] && Contains(s[1..], sub))
  }

  predicate Ends(s: string) { s != [] && s[|s| - 1] == '\n' }

  function Terminated(s: string): string { if Ends(s) then s else s + "\n" }

  /** The place of the first newline, or the length. */
  function Newline(s: string): (n: nat)
    ensures n <= |s| && (n < |s| ==> s[n] == '\n') && forall i :: 0 <= i < n ==> s[i] != '\n'
  {
    if s == [] || s[0] == '\n' then 0 else 1 + Newline(s[1..])
  }

  /** The pieces between newlines, without an empty last one. */
  function Pieces(s: string): seq<string> {
    if s == [] then [] else
    var n := Newline(s);
    if n == |s| then [s] else [s[..n]] + Pieces(s[n + 1..])
  }

  function StripReturn(s: string): string { if s != [] && s[|s| - 1] == '\r' then s[..|s| - 1] else s }

  /** `str::lines`: as the pieces, but a carriage return in front of a newline goes too. */
  function Lines(s: string): seq<string> {
    if s == [] then [] else
    var n := Newline(s);
    if n == |s| then [s] else [StripReturn(s[..n])] + Lines(s[n + 1..])
  }

  /** `join("\n")`. */
  function Join(lines: seq<string>): string {
    if lines == [] then "" else if |lines| == 1 then lines[0] else lines[0] + "\n" + Join(lines[1..])
  }

  function Unlines(lines: seq<string>): string {
    if lines == [] then "" else lines[0] + "\n" + Unlines(lines[1..])
  }

  function Keep(lines: seq<string>, drop: string -> bool): seq<string> {
    if lines == [] then [] else (if drop(lines[0]) then [] else [lines[0]]) + Keep(lines[1..], drop)
  }

  /** Is this a line of ours? */
  function Ours(name: string): string -> bool { line => Contains(line, name) || Contains(line, MARKER) }

  function Reference(name: string, file: string): seq<string> { ["", MARKER, AnchorLine(name), LoadLine(name, file)] }

  function WithAnchor(contents: string, name: string, file: string): string {
    if Contains(contents, AnchorLine(name)) then contents
    else Terminated(contents) + Unlines(Reference(name, file))
  }

  function WithoutAnchor(contents: string, name: string): string {
    var kept := Join(Keep(Lines(contents), Ours(name)));
    if |kept| < |contents| then Terminated(kept) else contents
  }

  // ---- Lines ----

  predicate OneLine(s: string) { '\n' !in s }

  predicate AllOneLine(lines: seq<string>) { forall i :: 0 <= i < |lines| ==> OneLine(lines[i]) }

  function Stripped(lines: seq<string>): seq<string> { seq(|lines|, i requires 0 <= i < |lines| => StripReturn(lines[i])) }

  lemma {:induction false} NewlineAfter(line: string, rest: string)
    requires OneLine(line)
    ensures Newline(line + "\n" + rest) == |line|
    ensures (line + "\n" + rest)[..|line|] == line && (line + "\n" + rest)[|line| + 1..] == rest
  {
    var s := line + "\n" + rest;
    assert s[|line|] == '\n';
    assert forall i :: 0 <= i < |line| ==> s[i] == line[i];
  }

  lemma {:induction false} SplitAtNewline(s: string)
    requires Newline(s) < |s|
    ensures s == s[..Newline(s)] + "\n" + s[Newline(s) + 1..] && OneLine(s[..Newline(s)])
  {
  }

  lemma {:induction false} TerminatedPrefix(line: string, rest: string)
    requires rest != ""
    ensures Terminated(line + "\n" + rest) == line + "\n" + Terminated(rest)
  {
    var s := line + "\n" + rest;
    assert s[|s| - 1] == rest[|rest| - 1];
  }

  lemma {:induction false} PiecesJoin(s: string)
    ensures AllOneLine(Pieces(s))
    ensures Unlines(Pieces(s)) == if s == "" then "" else Terminated(s)
  {
    if s == "" {
    } else if Newline(s) == |s| {
      assert Unlines([s]) == s + "\n";
    } else {
      var line, rest := s[..Newline(s)], s[Newline(s) + 1..];
      SplitAtNewline(s);
      PiecesJoin(rest);
      UnlinesConcat([line], Pieces(rest));
      assert Unlines([line]) == line + "\n";
      if rest != "" { TerminatedPrefix(line, rest); }
    }
  }

  lemma {:induction false} LinesOfFirst(line: string, rest: string)
    requires OneLine(line)
    ensures Lines(line + "\n" + rest) == [StripReturn(line)] + Lines(rest)
  {
    NewlineAfter(line, rest);
  }

  lemma {:induction false} LinesStep(line: string, text: string, rest: string, first: seq<string>)
    requires OneLine(line) && Lines(text + rest) == first + Lines(rest)
    ensures Lines(line + "\n" + text + rest) == [StripReturn(line)] + first + Lines(rest)
  {
    LinesOfFirst(line, text + rest);
    assert line + "\n" + text + rest == line + "\n" + (text + rest);
    assert [StripReturn(line)] + (first + Lines(rest)) == [StripReturn(line)] + first + Lines(rest);
  }

  lemma {:induction false} LinesOfUnlines(lines: seq<string>, rest: string)
    requires AllOneLine(lines)
    ensures Lines(Unlines(lines) + rest) == Stripped(lines) + Lines(rest)
  {
    if lines == [] {
      assert Unlines(lines) + rest == rest;
    } else {
      LinesOfUnlines(lines[1..], rest);
      LinesStep(lines[0], Unlines(lines[1..]), rest, Stripped(lines[1..]));
      assert Stripped(lines) == [StripReturn(lines[0])] + Stripped(lines[1..]);
    }
  }

  lemma {:induction false} UnlinesConcat(a: seq<string>, b: seq<string>)
    ensures Unlines(a + b) == Unlines(a) + Unlines(b)
  {
    if a == [] {
      assert a + b == b;
    } else {
      assert (a + b)[1..] == a[1..] + b;
      UnlinesConcat(a[1..], b);
    }
  }

  lemma {:induction false} KeepConcat(a: seq<string>, b: seq<string>, drop: string -> bool)
    ensures Keep(a + b, drop) == Keep(a, drop) + Keep(b, drop)
  {
    if a == [] {
      assert a + b == b;
    } else {
      assert (a + b)[1..] == a[1..] + b;
      KeepConcat(a[1..], b, drop);
    }
  }

  lemma {:induction false} JoinBlank(lines: seq<string>)
    ensures Join(lines + [""]) == Unlines(lines)
  {
    if lines == [] {
      assert lines + [""] == [""];
    } else {
      assert (lines + [""])[1..] == lines[1..] + [""];
      JoinBlank(lines[1..]);
    }
  }

  lemma {:induction false} JoinUnlines(lines: seq<string>)
    requires lines != []
    ensures Join(lines) + "\n" == Unlines(lines)
  {
    if |lines| > 1 { JoinUnlines(lines[1..]); }
  }

  // ---- Lengths: whatever is dropped or stripped is missed ----

  lemma {:induction false} KeptLength(lines: seq<string>, drop: string -> bool)
    requires AllOneLine(lines)
    ensures |Unlines(Keep(Stripped(lines), drop))| <= |Unlines(lines)|
    ensures |Unlines(Keep(Stripped(lines), drop))| == |Unlines(lines)| <==>
      forall i :: 0 <= i < |lines| ==> StripReturn(lines[i]) == lines[i] && !drop(lines[i])
    ensures |Unlines(Keep(Stripped(lines), drop))| == |Unlines(lines)| ==> Keep(Stripped(lines), drop) == lines
  {
    if lines != [] {
      var rest := lines[1..];
      KeptLength(rest, drop);
      assert Stripped(lines) == [StripReturn(lines[0])] + Stripped(rest);
      UnlinesConcat(if drop(StripReturn(lines[0])) then [] else [StripReturn(lines[0])], Keep(Stripped(rest), drop));
      assert forall i :: 0 <= i < |rest| ==> rest[i] == lines[i + 1];
      assert forall i :: 1 <= i < |lines| ==> rest[i - 1] == lines[i];
    }
  }

  lemma {:induction false} JoinedLength(s: string)
    ensures |Join(Lines(s))| <= |s| - if Ends(s) then 1 else 0
  {
    if s != [] && Newline(s) < |s| {
      var line, rest := s[..Newline(s)], s[Newline(s) + 1..];
      JoinedLength(rest);
      assert Lines(s) == [StripReturn(line)] + Lines(rest);
      assert Lines(s)[1..] == Lines(rest);
      assert rest != [] ==> s[|s| - 1] == rest[|rest| - 1];
    }
  }

  lemma {:induction false} DroppedLength(lines: seq<string>, drop: string -> bool)
    requires !drop("")
    ensures |Join(Keep(lines, drop))| <= |Join(lines)|
    ensures (exists i :: 0 <= i < |lines| && drop(lines[i])) ==> |Join(Keep(lines, drop))| < |Join(lines)|
    ensures (forall i :: 0 <= i < |lines| ==> !drop(lines[i])) ==> Keep(lines, drop) == lines
  {
    KeptIsShorter(lines, drop);
    if forall i :: 0 <= i < |lines| ==> !drop(lines[i]) { NoneDropped(lines, drop); }
  }

  lemma {:induction false} NoneDropped(lines: seq<string>, drop: string -> bool)
    requires forall i :: 0 <= i < |lines| ==> !drop(lines[i])
    ensures Keep(lines, drop) == lines
  {
    if lines != [] { NoneDropped(lines[1..], drop); }
  }

  lemma {:induction false} KeptIsShorter(lines: seq<string>, drop: string -> bool)
    requires !drop("")
    ensures |Join(Keep(lines, drop))| <= |Join(lines)|
    ensures (exists i :: 0 <= i < |lines| && drop(lines[i])) ==> |Join(Keep(lines, drop))| < |Join(lines)|
  {
    if lines != [] {
      var rest := lines[1..];
      KeptIsShorter(rest, drop);
      assert forall i :: 1 <= i < |lines| ==> rest[i - 1] == lines[i];
      if drop(lines[0]) {
        assert Keep(lines, drop) == Keep(rest, drop);
      } else {
        assert Keep(lines, drop) == [lines[0]] + Keep(rest, drop);
        assert Keep(lines, drop)[1..] == Keep(rest, drop);
      }
    }
  }

  // ---- Containment ----

  /** The search finds exactly the texts that occur somewhere. */
  lemma {:induction false} ContainsExactly(s: string, sub: string)
    ensures Contains(s, sub) <==> exists i :: Occurs(s, sub, i)
  {
    if sub <= s {
      assert Occurs(s, sub, 0);
    } else if s != [] {
      ContainsExactly(s[1..], sub);
      if i: nat :| Occurs(s[1..], sub, i) { OccursLater(s, sub, i); }
      if i: nat :| Occurs(s, sub, i) {
        assert i > 0;
        OccursLater(s, sub, i - 1);
      }
    }
  }

  lemma {:induction false} OccursLater(s: string, sub: string, i: nat)
    requires s != []
    ensures Occurs(s[1..], sub, i) <==> Occurs(s, sub, i + 1)
  {
    if i + 1 + |sub| <= |s| { assert s[1..][i..i + |sub|] == s[i + 1..i + 1 + |sub|]; }
  }

  lemma {:induction false} ContainsAt(s: string, sub: string, i: nat)
    requires Occurs(s, sub, i)
    ensures Contains(s, sub)
  {
    ContainsExactly(s, sub);
  }

  lemma {:induction false} ContainsWithin(s: string, inner: string, before: nat, sub: string)
    requires Contains(s, inner) && Occurs(inner, sub, before)
    ensures Contains(s, sub)
  {
    ContainsExactly(s, inner);
    var i: nat :| Occurs(s, inner, i);
    var at := i + before;
    assert forall k :: 0 <= k < |inner| ==> s[i + k] == inner[k];
    assert forall k :: 0 <= k < |sub| ==> inner[before + k] == sub[k];
    assert s[at..at + |sub|] == sub;
    ContainsAt(s, sub, at);
  }

  lemma {:induction false} ContainedInLine(s: string, sub: string, i: nat) returns (k: nat)
    requires Occurs(s, sub, i) && OneLine(sub) && sub != "" && sub[|sub| - 1] != '\r'
    ensures k < |Lines(s)| && Contains(Lines(s)[k], sub)
    decreases |s|
  {
    var n := Newline(s);
    k := 0;
    if n == |s| {
      ContainsAt(s, sub, i);
    } else if i < n {
      InFirstLine(s, sub, i, n);
    } else {
      InLaterLine(s, sub, i, n);
      k := ContainedInLine(s[n + 1..], sub, i - n - 1);
      k := k + 1;
    }
  }

  lemma {:induction false} InLaterLine(s: string, sub: string, i: nat, n: nat)
    requires Occurs(s, sub, i) && OneLine(sub) && sub != "" && n <= i && n < |s| && s[n] == '\n'
    ensures n < i && Occurs(s[n + 1..], sub, i - n - 1)
  {
    assert s[i] == s[i..i + |sub|][0];
    assert s[n + 1..][i - n - 1..i - n - 1 + |sub|] == s[i..i + |sub|];
  }

  lemma {:induction false} InFirstLine(s: string, sub: string, i: nat, n: nat)
    requires Occurs(s, sub, i) && OneLine(sub) && sub != "" && sub[|sub| - 1] != '\r'
    requires i < n < |s| && s[n] == '\n'
    ensures Contains(StripReturn(s[..n]), sub)
  {
    if n < i + |sub| { InsideOneLine(s, sub, i, n); }
    var line := StripReturn(s[..n]);
    assert s[i..i + |sub|][|sub| - 1] == s[i + |sub| - 1];
    assert i + |sub| <= |line|;
    PrefixSlice(line, s, i, i + |sub|);
    ContainsAt(line, sub, i);
  }

  lemma {:induction false} PrefixSlice(prefix: string, s: string, i: nat, j: nat)
    requires prefix <= s && i <= j <= |prefix|
    ensures prefix[i..j] == s[i..j]
  {
  }

  lemma {:induction false} InsideOneLine(s: string, sub: string, i: nat, n: nat)
    requires Occurs(s, sub, i) && OneLine(sub) && i <= n < i + |sub|
    ensures s[n] != '\n'
  {
    assert s[i..i + |sub|][n - i] == s[n];
  }

  // ---- Enabling and disabling ----

  /** No line of the terminated file ends in a carriage return or is one of ours. */
  predicate Clean(contents: string, name: string) {
    var pieces := Pieces(Terminated(contents));
    forall i :: 0 <= i < |pieces| ==> StripReturn(pieces[i]) == pieces[i] && !Ours(name)(pieces[i])
  }

  predicate GoodName(name: string) { name != "" && OneLine(name) }

  lemma {:induction false} ReferenceIsOurs(name: string, file: string)
    requires GoodName(name)
    ensures Ours(name)(MARKER) && Ours(name)(AnchorLine(name)) && Ours(name)(LoadLine(name, file)) && !Ours(name)("")
  {
    MarkerIsOurs(name, MARKER);
    AnchorContains(name);
    MentionIsOurs(name, AnchorLine(name));
    LoadContains(name, file);
    MentionIsOurs(name, LoadLine(name, file));
    BlankIsForeign(name);
  }

  lemma {:induction false} MarkerIsOurs(name: string, marker: string)
    requires marker == MARKER
    ensures Ours(name)(marker)
  {
  }

  lemma {:induction false} MentionIsOurs(name: string, line: string)
    requires Contains(line, name)
    ensures Ours(name)(line)
  {
  }

  lemma {:induction false} BlankIsForeign(name: string)
    requires name != ""
    ensures !Ours(name)("")
  {
  }

  lemma {:induction false} AnchorContains(name: string)
    ensures Contains(AnchorLine(name), name)
  {
    ContainsMiddle("anchor \"", name, "\"");
  }

  lemma {:induction false} LoadContains(name: string, file: string)
    ensures Contains(LoadLine(name, file), name)
  {
    var a, b, c, d := "load anchor \"", "\" from \"", file, "\"";
    ContainsMiddle(a, name, b + c + d);
    Regroup(a, name, b, c, d);
  }

  lemma {:induction false} Regroup(a: string, name: string, b: string, c: string, d: string)
    ensures a + name + (b + c + d) == a + name + b + c + d
  {
  }

  lemma {:induction false} ContainsMiddle(a: string, sub: string, b: string)
    ensures Contains(a + sub + b, sub)
  {
    ContainsAt(a + sub + b, sub, |a|);
  }

  lemma {:induction false} ReferenceLines(name: string, file: string)
    requires OneLine(name) && OneLine(file)
    ensures AllOneLine(Reference(name, file)) && Stripped(Reference(name, file)) == Reference(name, file)
  {
  }

  lemma {:induction false} KeepReference(a: string, b: string, c: string, drop: string -> bool)
    requires drop(a) && drop(b) && drop(c) && !drop("")
    ensures Keep(["", a, b, c], drop) == [""]
  {
    KeepConcat([""], [a, b, c], drop);
    KeepConcat([a], [b, c], drop);
    KeepConcat([b], [c], drop);
    assert [""] + [a, b, c] == ["", a, b, c] && [a] + [b, c] == [a, b, c] && [b] + [c] == [b, c];
  }

  lemma {:induction false} CleanedUp(lines: seq<string>, reference: seq<string>, drop: string -> bool)
    requires AllOneLine(lines) && AllOneLine(reference) && Stripped(reference) == reference
    requires Keep(reference, drop) == [""]
    ensures Join(Keep(Lines(Unlines(lines) + Unlines(reference)), drop)) == Unlines(Keep(Stripped(lines), drop))
  {
    LinesOfUnlines(lines, Unlines(reference));
    LinesOfUnlines(reference, "");
    assert Unlines(reference) + "" == Unlines(reference);
    assert Stripped(reference) + Lines("") == reference;
    KeepConcat(Stripped(lines), reference, drop);
    JoinBlank(Keep(Stripped(lines), drop));
  }

  /** Dropping and stripping gives the lines back, terminated, exactly when there was nothing to drop or strip. */
  lemma {:induction false} KeptExactly(lines: seq<string>, drop: string -> bool)
    requires AllOneLine(lines) && lines != [] && !drop("")
    ensures Terminated(Unlines(Keep(Stripped(lines), drop))) == Unlines(lines) <==>
      forall i :: 0 <= i < |lines| ==> StripReturn(lines[i]) == lines[i] && !drop(lines[i])
  {
    var kept := Keep(Stripped(lines), drop);
    KeptLength(lines, drop);
    JoinUnlines(lines);
    assert Ends(Unlines(lines));
    if kept != [] {
      JoinUnlines(kept);
      assert Ends(Unlines(kept));
    }
  }

  /**
   Enabling and then disabling the kill switch gives the file back, with a final newline, if and only if
   it is clean: otherwise its carriage returns, or its own lines that mention the anchor, are lost.
  */
  lemma {:induction false} EnableThenDisableExactly(contents: string, name: string, file: string)
    requires GoodName(name) && OneLine(file)
    ensures WithoutAnchor(WithAnchor(contents, name, file), name) == Terminated(contents) <==> Clean(contents, name)
  {
    if Contains(contents, AnchorLine(name)) {
      AnchoredIsUnclean(contents, name);
      AnchoredShrinks(contents, name);
    } else {
      var lines, drop := Pieces(Terminated(contents)), Ours(name);
      var reference := Reference(name, file);
      PiecesJoin(Terminated(contents));
      ReferenceIsOurs(name, file);
      ReferenceLines(name, file);
      KeepReference(MARKER, AnchorLine(name), LoadLine(name, file), drop);
      CleanedUp(lines, reference, drop);
      KeptLength(lines, drop);
      assert |Unlines(reference)| > 0;
      KeptExactly(lines, drop);
    }
  }

  /** The name is in the anchor line, which is one line. */
  lemma {:induction false} AnchorLineFacts(name: string)
    requires GoodName(name)
    ensures Occurs(AnchorLine(name), name, 8) && OneLine(AnchorLine(name)) && AnchorLine(name) != ""
    ensures AnchorLine(name)[|AnchorLine(name)| - 1] == '"'
  {
  }

  lemma {:induction false} AnchoredHasLine(contents: string, name: string) returns (k: nat)
    requires GoodName(name) && Contains(contents, AnchorLine(name))
    ensures k < |Lines(contents)| && Ours(name)(Lines(contents)[k])
  {
    AnchorLineFacts(name);
    ContainsExactly(contents, AnchorLine(name));
    var i: nat :| Occurs(contents, AnchorLine(name), i);
    k := ContainedInLine(contents, AnchorLine(name), i);
    ContainsWithin(Lines(contents)[k], AnchorLine(name), 8, name);
  }

  lemma {:induction false} AnchoredIsUnclean(contents: string, name: string)
    requires GoodName(name) && Contains(contents, AnchorLine(name))
    ensures !Clean(contents, name)
  {
    var text := Terminated(contents);
    var pieces := Pieces(text);
    ContainsExactly(contents, AnchorLine(name));
    var i: nat :| Occurs(contents, AnchorLine(name), i);
    PrefixSlice(contents, text, i, i + |AnchorLine(name)|);
    ContainsAt(text, AnchorLine(name), i);
    var k := AnchoredHasLine(text, name);
    PiecesJoin(text);
    LinesOfUnlines(pieces, "");
    assert Unlines(pieces) + "" == text;
    assert Stripped(pieces) + Lines("") == Stripped(pieces);
    assert Lines(text)[k] == StripReturn(pieces[k]);
  }

  lemma {:induction false} AnchoredShrinks(contents: string, name: string)
    requires GoodName(name) && Contains(contents, AnchorLine(name))
    ensures |WithoutAnchor(contents, name)| < |Terminated(contents)|
  {
    var k := AnchoredHasLine(contents, name);
    BlankIsForeign(name);
    DroppedLength(Lines(contents), Ours(name));
    JoinedLength(contents);
  }

  /** Enabling again changes nothing. */
  lemma {:induction false} EnableTwice(contents: string, name: string, file: string)
    ensures WithAnchor(WithAnchor(contents, name, file), name, file) == WithAnchor(contents, name, file)
    ensures Contains(WithAnchor(contents, name, file), AnchorLine(name))
  {
    if !Contains(contents, AnchorLine(name)) {
      ContainsThird(Terminated(contents), "", MARKER, AnchorLine(name), LoadLine(name, file));
    }
  }

  lemma {:induction false} ContainsThird(text: string, a: string, b: string, line: string, c: string)
    ensures Contains(text + Unlines([a, b, line, c]), line)
  {
    UnlinesConcat([a, b], [line, c]);
    UnlinesConcat([line], [c]);
    assert [a, b, line, c] == [a, b] + [line, c] && [line, c] == [line] + [c];
    assert Unlines([line]) == line + "\n";
    var before, after := text + Unlines([a, b]), "\n" + Unlines([c]);
    assert text + (Unlines([a, b]) + (line + "\n" + Unlines([c]))) == before + line + after;
    ContainsMiddle(before, line, after);
  }

  // ---- Disabling alone ----

  lemma {:induction false} StrippedStaysForeign(line: string, name: string)
    requires !Ours(name)(line)
    ensures !Ours(name)(StripReturn(line))
  {
    var prefix := StripReturn(line);
    forall sub: string | Contains(prefix, sub)
      ensures Contains(line, sub)
    {
      ContainsExactly(prefix, sub);
      var i: nat :| Occurs(prefix, sub, i);
      PrefixSlice(prefix, line, i, i + |sub|);
      ContainsAt(line, sub, i);
    }
  }

  lemma {:induction false} LinesAreOneLine(s: string)
    ensures AllOneLine(Lines(s))
  {
    if s != [] && Newline(s) < |s| { LinesAreOneLine(s[Newline(s) + 1..]); }
  }

  lemma {:induction false} KeepKeeps(lines: seq<string>, drop: string -> bool)
    ensures forall i :: 0 <= i < |Keep(lines, drop)| ==> Keep(lines, drop)[i] in lines && !drop(Keep(lines, drop)[i])
  {
    if lines != [] { KeepKeeps(lines[1..], drop); }
  }

  /** Joined and terminated, a list loses a blank at its end. */
  function Written(lines: seq<string>): seq<string> {
    if lines == [] then [""] else if |lines| > 1 && lines[|lines| - 1] == "" then lines[..|lines| - 1] else lines
  }

  lemma {:induction false} TerminatedJoin(lines: seq<string>)
    requires AllOneLine(lines)
    ensures Terminated(Join(lines)) == Unlines(Written(lines))
  {
    if lines == [] {
      assert Unlines([""]) == "\n";
    } else if |lines| > 1 && lines[|lines| - 1] == "" {
      var init := lines[..|lines| - 1];
      assert lines == init + [""];
      JoinBlank(init);
      JoinUnlines(init);
    } else {
      JoinUnlines(lines);
      LastOfJoin(lines);
    }
  }

  lemma {:induction false} LinesOfWritten(lines: seq<string>)
    requires AllOneLine(lines)
    ensures Lines(Terminated(Join(lines))) == Stripped(Written(lines))
  {
    var written := Written(lines);
    TerminatedJoin(lines);
    LinesOfUnlines(written, "");
    assert Unlines(written) + "" == Unlines(written);
    assert Stripped(written) + Lines("") == Stripped(written);
  }

  lemma {:induction false} LastOfJoin(lines: seq<string>)
    requires AllOneLine(lines) && lines != [] && (|lines| > 1 ==> lines[|lines| - 1] != "")
    ensures !Ends(Join(lines))
  {
    if |lines| > 1 {
      if |lines| > 2 || lines[1] != "" { LastOfJoin(lines[1..]); }
    }
  }

  /** Which lines are ours: those that mention the anchor's name or the comment. */
  lemma {:induction false} OursExactly(name: string, line: string)
    ensures Ours(name)(line) <==> (exists i :: Occurs(line, name, i)) || (exists i :: Occurs(line, "# HPN VPN Kill Switch", i))
  {
    ContainsExactly(line, name);
    ContainsExactly(line, "# HPN VPN Kill Switch");
  }

  /** A line is dropped or stays, on its own. */
  lemma {:induction false} KeepExactly(before: seq<string>, line: string, after: seq<string>, drop: string -> bool)
    ensures Keep(before + [line] + after, drop) == Keep(before, drop) + (if drop(line) then [] else [line]) + Keep(after, drop)
    ensures Keep([], drop) == []
  {
    KeepConcat(before + [line], after, drop);
    KeepConcat(before, [line], drop);
  }

  /**
   Disabling, on any file of complete lines without carriage returns: the lines that are not ours stay, in order, except for
   a blank one at the end. A file that was all ours becomes one blank line.
  */
  lemma {:induction false} DisableExactly(lines: seq<string>, name: string)
    requires name != "" && lines != [] && forall i :: 0 <= i < |lines| ==> OneLine(lines[i]) && StripReturn(lines[i]) == lines[i]
    ensures var kept := Keep(lines, Ours(name));
      WithoutAnchor(Unlines(lines), name) == (
        if kept == [] then "\n"
        else if |kept| > 1 && kept[|kept| - 1] == "" then Unlines(kept[..|kept| - 1])
        else Unlines(kept))
  {
    var contents, kept := Unlines(lines), Keep(lines, Ours(name));
    LinesOfUnlines(lines, "");
    assert Unlines(lines) + "" == Unlines(lines) && Stripped(lines) + Lines("") == lines;
    BlankIsForeign(name);
    DroppedLength(lines, Ours(name));
    JoinUnlines(lines);
    KeepKeeps(lines, Ours(name));
    TerminatedJoin(kept);
  }

  /** After disabling, whatever the file was, no line of it is ours, and there is no anchor in it. */
  lemma {:induction false} DisableRemovesAll(contents: string, name: string)
    requires GoodName(name)
    ensures var lines := Lines(WithoutAnchor(contents, name)); forall i :: 0 <= i < |lines| ==> !Ours(name)(lines[i])
    ensures !Contains(WithoutAnchor(contents, name), AnchorLine(name))
  {
    var lines, drop := Lines(contents), Ours(name);
    var kept := Keep(lines, drop);
    var result := WithoutAnchor(contents, name);
    BlankIsForeign(name);
    LinesAreOneLine(contents);
    KeepKeeps(lines, drop);
    if |Join(kept)| < |contents| {
      assert AllOneLine(kept);
      LinesOfWritten(kept);
      forall i | 0 <= i < |kept| ensures !drop(StripReturn(kept[i])) { StrippedStaysForeign(kept[i], name); }
    } else {
      DroppedLength(lines, drop);
      JoinedLength(contents);
    }
    if Contains(result, AnchorLine(name)) {
      var k := AnchoredHasLine(result, name);
    }
  }

  /**
   On a clean file, which has nothing to remove, disabling changes nothing if and only if the file
   does not end in a blank line; it loses one blank line otherwise.
  */
  lemma {:induction false} DisableCleanExactly(contents: string, name: string)
    requires name != "" && Clean(contents, name)
    ensures WithoutAnchor(contents, name) ==
      if |contents| > 1 && Ends(contents[..|contents| - 1]) && Ends(contents) then contents[..|contents| - 1] else contents
  {
    if contents != "" {
      var pieces, drop := Pieces(Terminated(contents)), Ours(name);
      CleanLines(contents, name);
      BlankIsForeign(name);
      DroppedLength(pieces, drop);
      PiecesJoin(Terminated(contents));
      JoinUnlines(pieces);
      assert Join(pieces) == Terminated(contents)[..|Terminated(contents)| - 1];
    }
  }

  lemma {:induction false} CleanLines(contents: string, name: string)
    requires Clean(contents, name) && contents != ""
    ensures Lines(contents) == Pieces(Terminated(contents))
  {
    var pieces := Pieces(Terminated(contents));
    PiecesJoin(Terminated(contents));
    assert Stripped(pieces) == pieces;
    if Ends(contents) {
      LinesOfUnlines(pieces, "");
      assert Unlines(pieces) + "" == contents;
      assert pieces + Lines("") == pieces;
    } else {
      UnterminatedLines(pieces, contents);
    }
  }

  lemma {:induction false} CancelNewline(a: string, b: string)
    requires a + "\n" == b + "\n"
    ensures a == b
  {
    assert a == (a + "\n")[..|a + "\n"| - 1];
    assert b == (b + "\n")[..|b + "\n"| - 1];
  }

  lemma {:induction false} UnterminatedLines(pieces: seq<string>, contents: string)
    requires AllOneLine(pieces) && Stripped(pieces) == pieces && contents != "" && !Ends(contents)
    requires Unlines(pieces) == contents + "\n"
    ensures Lines(contents) == pieces
  {
    var init, last := pieces[..|pieces| - 1], pieces[|pieces| - 1];
    assert pieces == init + [last];
    UnlinesConcat(init, [last]);
    assert Unlines([last]) == last + "\n";
    CancelNewline(Unlines(init) + last, contents);
    if last == "" {
      JoinUnlines(init);
    } else {
      LinesOfUnlines(init, last);
      assert Newline(last) == |last|;
      assert Stripped(init) == init;
    }
  }

  /** The file after the kill switch has been enabled and disabled `rounds` times. */
  function AfterRounds(contents: string, name: string, file: string, rounds: nat): string {
    if rounds == 0 then contents
    else WithoutAnchor(WithAnchor(AfterRounds(contents, name, file, rounds - 1), name, file), name)
  }

  /** The first round settles a clean file for good. */
  lemma {:induction false} RoundsSettle(contents: string, name: string, file: string, rounds: nat)
    requires GoodName(name) && OneLine(file) && Clean(contents, name) && rounds > 0
    ensures AfterRounds(contents, name, file, rounds) == Terminated(contents)
  {
    if rounds > 1 { RoundsSettle(contents, name, file, rounds - 1); }
    Round(AfterRounds(contents, name, file, rounds - 1), contents, name, file);
  }

  lemma {:induction false} Round(before: string, contents: string, name: string, file: string)
    requires GoodName(name) && OneLine(file) && Clean(contents, name) && (before == contents || before == Terminated(contents))
    ensures WithoutAnchor(WithAnchor(before, name, file), name) == Terminated(contents)
  {
    assert Terminated(before) == Terminated(contents);
    EnableThenDisableExactly(before, name, file);
  }

  /** What enabling writes: a blank line, the comment, and the two lines that name the anchor and its file. */
  lemma {:induction false} EnabledText(contents: string, name: string, file: string)
    ensures var anchor, load := "anchor \"" + name + "\"", "load anchor \"" + name + "\" from \"" + file + "\"";
      var text := if contents != "" && contents[|contents| - 1] == '\n' then contents else contents + "\n";
      WithAnchor(contents, name, file) ==
        if exists i :: Occurs(contents, anchor, i) then contents
        else text + "\n" + "# HPN VPN Kill Switch" + "\n" + anchor + "\n" + load + "\n"
  {
    ContainsExactly(contents, AnchorLine(name));
    InPieces(Terminated(contents), MARKER, AnchorLine(name), LoadLine(name, file));
  }

  // ---- The operations ----

  /** The configuration file, as the kill switch named `name` edits it. */
  class ConfFile {
    var contents: string
    const name: string
    const file: string

    constructor (contents: string, name: string)
      ensures this.contents == contents && this.name == name && file == "/etc/pf.anchors/" + name
    {
      this.contents, this.name, file := contents, name, "/etc/pf.anchors/" + name;
    }

    method EnsureAnchor()
      modifies this
      ensures contents == WithAnchor(old(contents), name, file)
      ensures Contains(contents, AnchorLine(name))
    {
      EnableTwice(contents, name, file);
      var anchorLine := AnchorLine(name);
      if Contains(contents, anchorLine) { return; }
      var loadLine := LoadLine(name, file);
      var text := contents;
      if !Ends(text) { text := text + "\n"; }
      InPieces(text, MARKER, anchorLine, loadLine);
      text := text + "\n" + MARKER + "\n";
      text := text + anchorLine;
      text := text + "\n";
      text := text + loadLine;
      text := text + "\n";
      contents := text;
    }

    method RemoveAnchor()
      modifies this
      ensures contents == WithoutAnchor(old(contents), name)
      ensures GoodName(name) ==> !Contains(contents, AnchorLine(name))
      ensures GoodName(name) ==> forall i :: 0 <= i < |Lines(contents)| ==> !Ours(name)(Lines(contents)[i])
      ensures name != "" && Clean(old(contents), name) ==> contents <= old(contents) && |contents| + 1 >= |old(contents)|
    {
      if GoodName(name) { DisableRemovesAll(contents, name); }
      if name != "" && Clean(contents, name) { DisableCleanExactly(contents, name); }
      var kept := Join(Keep(Lines(contents), Ours(name)));
      if |kept| < |contents| {
        contents := if Ends(kept) then kept else kept + "\n";
      }
    }
  }

  lemma {:induction false} PushLine(text: string, lines: seq<string>, line: string)
    ensures text + Unlines(lines + [line]) == text + Unlines(lines) + line + "\n"
  {
    UnlinesConcat(lines, [line]);
    assert Unlines([line]) == line + "\n";
  }

  lemma {:induction false} InPieces(text: string, a: string, b: string, c: string)
    ensures text + Unlines(["", a, b, c]) == text + "\n" + a + "\n" + b + "\n" + c + "\n"
  {
    PushLine(text, [], "");
    PushLine(text, [""], a);
    PushLine(text, ["", a], b);
    PushLine(text, ["", a, b], c);
    assert [""] + [a] == ["", a] && ["", a] + [b] == ["", a, b] && ["", a, b] + [c] == ["", a, b, c];
    assert text + Unlines([]) + "" + "\n" == text + "\n";
  }
}
