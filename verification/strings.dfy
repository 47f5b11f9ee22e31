/** The string functions `regexEscape` (index.js 3534-3538), `words`,
    `unwords`, `lines` and `unlines` (index.js 3645-3710).

    Each is a one-liner over a regular expression in the source; here the
    expression is spelled out as a recursive function, and the lemmas record
    what the documentation promises of the result: words hold no whitespace,
    lines hold no line terminator, and joining undoes splitting.
 */
module Strings {
  import Chars

  /** Whether `s` holds no whitespace character. */
  predicate NoSpace(s: string) {
    forall i :: 0 <= i < |s| ==> !Chars.IsSpace(s[i])
  }

  /** The characters of `s` that are not whitespace, in order. */
  function DropSpaces(s: string): (r: string)
    ensures NoSpace(r)
  {
    if |s| == 0 then ""
    else (if Chars.IsSpace(s[0]) then "" else [s[0]]) + DropSpaces(s[1..])
  }

  /** The strings of `ws` one after another. */
  function Concat(ws: seq<string>): string {
    if |ws| == 0 then "" else ws[0] + Concat(ws[1..])
  }

  lemma {:induction false} DropSpacesOfWord(s: string)
    requires NoSpace(s)
    ensures DropSpaces(s) == s
    decreases |s|
  {
    if |s| > 0 {
      DropSpacesOfWord(s[1..]);
      assert s == [s[0]] + s[1..];
    }
  }

  // ---------------------------------------------------------------------------
  // words and unwords
  // ---------------------------------------------------------------------------

  /** `s.split(/\s+/)`: the pieces between maximal runs of whitespace,
      including an empty piece before a leading run and after a trailing
      one. */
  function SplitOnSpace(s: string): (r: seq<string>)
    ensures |r| >= 1
    ensures forall k :: 0 <= k < |r| ==> NoSpace(r[k])
    ensures forall k :: 0 < k < |r| - 1 ==> |r[k]| > 0
    ensures |s| > 0 && !Chars.IsSpace(s[0]) ==> |r[0]| > 0
    ensures |r| == 1 ==> r[0] == s
    decreases |s|
  {
    var i := Chars.FindSpace(s, 0);
    if i == |s| then [s]
    else
      var j := Chars.SkipSpace(s, i);
      var rest := SplitOnSpace(s[j..]);
      assert |rest| > 1 ==> |s[j..]| > 0 && !Chars.IsSpace(s[j..][0]);
      [s[..i]] + rest
  }

  /** `words`: the split pieces without the empty piece a leading or
      trailing run of whitespace leaves. */
  function Words(s: string): (r: seq<string>)
    ensures forall k :: 0 <= k < |r| ==> |r[k]| > 0 && NoSpace(r[k])
  {
    TrimEmpty(SplitOnSpace(s))
  }

  /** The pieces without an empty first piece and an empty last piece. */
  function TrimEmpty(ws: seq<string>): seq<string>
    requires |ws| >= 1
  {
    var start := if ws[0] == "" then 1 else 0;
    var end := if ws[|ws| - 1] == "" then |ws| - 1 else |ws|;
    if start <= end then ws[start..end] else []
  }

  /** `unwords`: `ws.join(' ')`, which is `Join` with single spaces as the
      separators. */
  function Unwords(ws: seq<string>): (r: string)
    ensures |ws| == 0 ==> r == ""
    ensures |ws| >= 1 ==> r == Join(ws, SingleSpaces(|ws| - 1))
  {
    if |ws| == 0 then ""
    else if |ws| == 1 then ws[0]
    else
      assert SingleSpaces(|ws| - 1)[1..] == SingleSpaces(|ws| - 2);
      ws[0] + " " + Unwords(ws[1..])
  }

  lemma ConcatCons(w: string, rest: seq<string>)
    ensures Concat([w] + rest) == w + Concat(rest)
  {
    assert ([w] + rest)[1..] == rest;
  }

  /** Removing whitespace from a word, a run of whitespace and the rest. */
  lemma {:induction false} DropSpacesAfterRun(s: string, i: nat, j: nat)
    requires i <= j <= |s|
    requires NoSpace(s[..i])
    requires forall k :: i <= k < j ==> Chars.IsSpace(s[k])
    ensures DropSpaces(s) == s[..i] + DropSpaces(s[j..])
    decreases j
  {
    if j > 0 {
      var t := s[1..];
      assert t[j - 1..] == s[j..];
      if i > 0 {
        assert s[..i][0] == s[0];
        assert t[..i - 1] == s[..i][1..];
        DropSpacesAfterRun(t, i - 1, j - 1);
        assert s[..i] == [s[0]] + t[..i - 1];
      } else {
        DropSpacesAfterRun(t, 0, j - 1);
      }
    }
  }

  /** Splitting keeps every non-whitespace character, in order. */
  lemma {:induction false} SplitOnSpaceKeepsText(s: string)
    ensures Concat(SplitOnSpace(s)) == DropSpaces(s)
    decreases |s|
  {
    var i := Chars.FindSpace(s, 0);
    if i == |s| {
      assert SplitOnSpace(s) == [s];
      ConcatCons(s, []);
      DropSpacesOfWord(s);
    } else {
      var j := Chars.SkipSpace(s, i);
      var rest := SplitOnSpace(s[j..]);
      assert SplitOnSpace(s) == [s[..i]] + rest;
      ConcatCons(s[..i], rest);
      SplitOnSpaceKeepsText(s[j..]);
      assert NoSpace(s[..i]);
      DropSpacesAfterRun(s, i, j);
    }
  }

  /** Empty strings at the front contribute nothing to a concatenation. */
  lemma {:induction false} ConcatLeadingEmpty(ws: seq<string>, start: nat)
    requires start <= |ws|
    requires forall k :: 0 <= k < start ==> ws[k] == ""
    ensures Concat(ws[start..]) == Concat(ws)
    decreases start
  {
    if start > 0 {
      assert Concat(ws) == Concat(ws[1..]) by {
        assert Concat(ws) == ws[0] + Concat(ws[1..]);
      }
      ConcatLeadingEmpty(ws[1..], start - 1);
      assert ws[1..][start - 1..] == ws[start..];
    }
  }

  /** Empty strings at the back contribute nothing to a concatenation. */
  lemma {:induction false} ConcatTrailingEmpty(ws: seq<string>, end: nat)
    requires end <= |ws|
    requires forall k :: end <= k < |ws| ==> ws[k] == ""
    ensures Concat(ws[..end]) == Concat(ws)
    decreases |ws|
  {
    if end == 0 {
      if |ws| > 0 {
        ConcatTrailingEmpty(ws[1..], 0);
        assert ws[1..][..0] == ws[..0];
      }
    } else {
      ConcatTrailingEmpty(ws[1..], end - 1);
      assert ws[..end][1..] == ws[1..][..end - 1];
    }
  }

  /** Dropping empty strings from both ends leaves the concatenation. */
  lemma ConcatTrim(ws: seq<string>, start: nat, end: nat)
    requires start <= end <= |ws|
    requires forall k :: 0 <= k < start ==> ws[k] == ""
    requires forall k :: end <= k < |ws| ==> ws[k] == ""
    ensures Concat(ws[start..end]) == Concat(ws)
  {
    ConcatTrailingEmpty(ws, end);
    ConcatLeadingEmpty(ws[..end], start);
    assert ws[..end][start..] == ws[start..end];
  }

  /** `words` keeps the text: the words laid end to end are the string with
      its whitespace removed. */
  lemma WordsKeepText(s: string)
    ensures Concat(Words(s)) == DropSpaces(s)
  {
    SplitOnSpaceKeepsText(s);
    ConcatTrimEmpty(SplitOnSpace(s));
  }

  /** Dropping empty end pieces keeps the pieces laid end to end. */
  lemma ConcatTrimEmpty(ws: seq<string>)
    requires |ws| >= 1
    ensures Concat(TrimEmpty(ws)) == Concat(ws)
  {
    if |ws| == 1 && ws[0] == "" {
      ConcatOfEmpty(ws);
    } else {
      ConcatTrimPieces(ws);
    }
  }

  lemma ConcatTrimPieces(ws: seq<string>)
    requires |ws| > 1 || (|ws| == 1 && ws[0] != "")
    ensures Concat(TrimEmpty(ws)) == Concat(ws)
  {
    var start := if ws[0] == "" then 1 else 0;
    var end := if ws[|ws| - 1] == "" then |ws| - 1 else |ws|;
    assert start <= end;
    assert TrimEmpty(ws) == ws[start..end];
    assert forall k :: 0 <= k < start ==> ws[k] == "";
    OnlyLastAfter(ws, end);
    ConcatTrim(ws, start, end);
  }

  lemma OnlyLastAfter(ws: seq<string>, end: nat)
    requires |ws| - 1 <= end <= |ws|
    requires end < |ws| ==> ws[|ws| - 1] == ""
    ensures forall k :: end <= k < |ws| ==> ws[k] == ""
  {
  }

  lemma ConcatOfEmpty(ws: seq<string>)
    requires |ws| == 1 && ws[0] == ""
    ensures Concat(TrimEmpty(ws)) == Concat(ws)
  {
    ConcatCons("", []);
    assert ws == [""] + [];
  }

  /** Words are non-empty and free of whitespace. */
  predicate IsWord(w: string) {
    |w| > 0 && NoSpace(w)
  }

  /** Whether every character of `s` is whitespace. */
  predicate AllSpace(s: string) {
    forall i :: 0 <= i < |s| ==> Chars.IsSpace(s[i])
  }

  /** The pieces with a separator between each two:
      `ws[0] + seps[0] + ws[1] + ... + seps[n - 2] + ws[n - 1]`. */
  function Join(ws: seq<string>, seps: seq<string>): string
    requires |ws| >= 1 && |seps| == |ws| - 1
    decreases |ws|
  {
    if |ws| == 1 then ws[0] else ws[0] + seps[0] + Join(ws[1..], seps[1..])
  }

  /** `n` single spaces, the separators `unwords` puts between words. */
  function SingleSpaces(n: nat): (r: seq<string>)
    ensures |r| == n && forall k :: 0 <= k < n ==> r[k] == " "
  {
    seq(n, k => " ")
  }

  /** Every separator is a non-empty run of whitespace. */
  predicate Separators(seps: seq<string>) {
    forall k :: 0 <= k < |seps| ==> |seps[k]| > 0 && AllSpace(seps[k])
  }

  /** The shape of what `split(/\s+/)` returns: at least one piece, no piece
      holding whitespace, and only the first and the last piece possibly
      empty. */
  predicate Pieces(ws: seq<string>) {
    && |ws| >= 1
    && (forall k :: 0 <= k < |ws| ==> NoSpace(ws[k]))
    && (forall k :: 0 < k < |ws| - 1 ==> |ws[k]| > 0)
  }

  /** The maximal runs of whitespace that `s.split(/\s+/)` cuts out, in
      order. */
  function SpaceRuns(s: string): (r: seq<string>)
    ensures Separators(r)
    ensures |r| == |SplitOnSpace(s)| - 1
    decreases |s|
  {
    var i := Chars.FindSpace(s, 0);
    if i == |s| then []
    else
      var j := Chars.SkipSpace(s, i);
      assert j > i;
      [s[i..j]] + SpaceRuns(s[j..])
  }

  lemma JoinCons(w: string, sep: string, ws: seq<string>, seps: seq<string>)
    requires |ws| >= 1 && |seps| == |ws| - 1
    ensures Join([w] + ws, [sep] + seps) == w + sep + Join(ws, seps)
  {
    assert ([w] + ws)[1..] == ws;
    assert ([sep] + seps)[1..] == seps;
  }

  lemma {:induction false} JoinSnoc(ws: seq<string>, seps: seq<string>, sep: string, w: string)
    requires |ws| >= 1 && |seps| == |ws| - 1
    ensures Join(ws + [w], seps + [sep]) == Join(ws, seps) + sep + w
    decreases |ws|
  {
    if |ws| == 1 {
      assert ws + [w] == [ws[0]] + [w];
      assert seps + [sep] == [sep] + [];
      JoinCons(ws[0], sep, [w], []);
    } else {
      JoinSnoc(ws[1..], seps[1..], sep, w);
      assert (ws + [w])[1..] == ws[1..] + [w];
      assert (seps + [sep])[1..] == seps[1..] + [sep];
    }
  }

  /** Every string is its split pieces joined by the whitespace runs between
      them. */
  lemma {:induction false} SplitOnSpaceDecomposes(s: string)
    ensures Pieces(SplitOnSpace(s))
    ensures s == Join(SplitOnSpace(s), SpaceRuns(s))
    decreases |s|
  {
    if Chars.FindSpace(s, 0) == |s| {
      assert SplitOnSpace(s) == [s];
    } else {
      var piece, run, rest := SplitOnSpaceStep(s);
      SplitOnSpaceDecomposes(rest);
      JoinCons(piece, run, SplitOnSpace(rest), SpaceRuns(rest));
    }
  }

  /** One step of the split: the piece before the first run of whitespace,
      the run, and the rest of the string. */
  lemma SplitOnSpaceStep(s: string) returns (piece: string, run: string, rest: string)
    requires Chars.FindSpace(s, 0) < |s|
    ensures |rest| < |s|
    ensures SplitOnSpace(s) == [piece] + SplitOnSpace(rest)
    ensures SpaceRuns(s) == [run] + SpaceRuns(rest)
    ensures s == piece + run + rest
  {
    var i := Chars.FindSpace(s, 0);
    var j := Chars.SkipSpace(s, i);
    piece, run, rest := s[..i], s[i..j], s[j..];
    assert s == s[..i] + s[i..j] + s[j..];
  }


  /** A piece on its own splits into itself. */
  lemma SplitOnSpaceOfPiece(w: string)
    requires NoSpace(w)
    ensures SplitOnSpace(w) == [w]
  {
    assert Chars.FindSpace(w, 0) == |w|;
  }

  /** `FindSpace` from the start stops at the first whitespace. */
  lemma FindSpaceIs(s: string, n: nat)
    requires n < |s| && NoSpace(s[..n]) && Chars.IsSpace(s[n])
    ensures Chars.FindSpace(s, 0) == n
  {
  }

  /** `SkipSpace` stops at the end of the run of whitespace. */
  lemma SkipSpaceIs(s: string, i: nat, m: nat)
    requires i <= m <= |s| && AllSpace(s[i..m])
    requires m < |s| ==> !Chars.IsSpace(s[m])
    ensures Chars.SkipSpace(s, i) == m
  {
  }

  /** A piece, a run of whitespace, and text that does not start with
      whitespace: the split takes the piece and goes on after the run. */
  lemma SplitOnSpaceSep(w: string, sep: string, rest: string)
    requires NoSpace(w) && |sep| > 0 && AllSpace(sep)
    requires |rest| == 0 || !Chars.IsSpace(rest[0])
    ensures SplitOnSpace(w + sep + rest) == [w] + SplitOnSpace(rest)
  {
    var s := w + sep + rest;
    var n, m := |w|, |w| + |sep|;
    assert s[..n] == w;
    assert s[n] == sep[0];
    FindSpaceIs(s, n);
    assert s[n..m] == sep;
    if |rest| > 0 {
      assert s[m] == rest[0];
    }
    SkipSpaceIs(s, n, m);
    assert s[m..] == rest;
  }

  /** Splitting joined pieces gives them back, whatever runs of whitespace
      separate them: the split finds exactly those runs. */
  lemma {:induction false} SplitOnSpaceJoin(ws: seq<string>, seps: seq<string>)
    requires Pieces(ws) && Separators(seps) && |seps| == |ws| - 1
    ensures SplitOnSpace(Join(ws, seps)) == ws
    decreases |ws|
  {
    if |ws| == 1 {
      SplitOnSpaceOfPiece(ws[0]);
    } else {
      var rest := Join(ws[1..], seps[1..]);
      assert Pieces(ws[1..]) by {
        assert forall k :: 0 <= k < |ws| - 1 ==> ws[1..][k] == ws[k + 1];
      }
      assert Separators(seps[1..]) by {
        assert forall k :: 0 <= k < |seps| - 1 ==> seps[1..][k] == seps[k + 1];
      }
      SplitOnSpaceJoin(ws[1..], seps[1..]);
      assert |rest| == 0 || !Chars.IsSpace(rest[0]) by {
        assert NoSpace(ws[1]);
        if |ws[1]| == 0 {
          assert |ws| == 2;
        }
      }
      assert |seps[0]| > 0 && AllSpace(seps[0]);
      SplitOnSpaceSep(ws[0], seps[0], rest);
      assert [ws[0]] + ws[1..] == ws;
    }
  }

  /** Whitespace before the text becomes an empty first piece and a first
      separator. */
  lemma PadLead(lead: string, ws: seq<string>, seps: seq<string>) returns (ws': seq<string>, seps': seq<string>)
    requires |ws| >= 1 && |seps| == |ws| - 1 && AllSpace(lead) && Separators(seps)
    ensures ws' == (if |lead| > 0 then [""] else []) + ws
    ensures |ws'| >= 1 && |seps'| == |ws'| - 1 && Separators(seps')
    ensures Join(ws', seps') == lead + Join(ws, seps)
  {
    if |lead| > 0 {
      ws', seps' := [""] + ws, [lead] + seps;
      JoinCons("", lead, ws, seps);
      assert forall k :: 0 < k < |seps'| ==> seps'[k] == seps[k - 1];
    } else {
      ws', seps' := ws, seps;
      assert lead + Join(ws, seps) == Join(ws, seps);
    }
  }

  /** Whitespace after the text becomes a last separator and an empty last
      piece. */
  lemma PadTrail(ws: seq<string>, seps: seq<string>, trail: string) returns (ws': seq<string>, seps': seq<string>)
    requires |ws| >= 1 && |seps| == |ws| - 1 && AllSpace(trail) && Separators(seps)
    ensures ws' == ws + (if |trail| > 0 then [""] else [])
    ensures |ws'| >= 1 && |seps'| == |ws'| - 1 && Separators(seps')
    ensures Join(ws', seps') == Join(ws, seps) + trail
  {
    if |trail| > 0 {
      ws', seps' := ws + [""], seps + [trail];
      JoinSnoc(ws, seps, trail, "");
      assert forall k :: 0 <= k < |seps| ==> seps'[k] == seps[k];
    } else {
      ws', seps' := ws, seps;
      assert Join(ws, seps) + trail == Join(ws, seps);
    }
  }

  /** Words with an optional empty piece on either side have the shape of a
      split, and trimming the empty pieces leaves the words. */
  lemma PaddedWords(ws: seq<string>, lead: bool, trail: bool)
    requires |ws| >= 1 && forall k :: 0 <= k < |ws| ==> IsWord(ws[k])
    ensures Pieces((if lead then [""] else []) + ws + (if trail then [""] else []))
    ensures TrimEmpty((if lead then [""] else []) + ws + (if trail then [""] else [])) == ws
  {
    var a: seq<string> := if lead then [""] else [];
    var z: seq<string> := if trail then [""] else [];
    PaddedPieces(a, ws, z);
    assert TrimEmpty(a + ws + z) == ws by {
      var p := a + ws + z;
      assert p[0] == "" <==> lead by {
        assert !lead ==> p[0] == ws[0];
      }
      assert p[|p| - 1] == "" <==> trail by {
        assert !trail ==> p[|p| - 1] == ws[|ws| - 1];
      }
      assert p[|a|..|a| + |ws|] == ws;
    }
  }

  /** Words with at most one empty piece on either side have the shape of a
      split. */
  lemma PaddedPieces(a: seq<string>, ws: seq<string>, z: seq<string>)
    requires |ws| >= 1 && forall k :: 0 <= k < |ws| ==> IsWord(ws[k])
    requires |a| <= 1 && |z| <= 1 && (forall k :: 0 <= k < |a| ==> a[k] == "") && (forall k :: 0 <= k < |z| ==> z[k] == "")
    ensures Pieces(a + ws + z)
  {
    var p := a + ws + z;
    forall k | 0 <= k < |p|
      ensures NoSpace(p[k]) && (0 < k < |p| - 1 ==> |p[k]| > 0)
    {
      if k < |a| {
        assert p[k] == a[k];
      } else if k < |a| + |ws| {
        assert p[k] == ws[k - |a|];
      } else {
        assert p[k] == z[k - |a| - |ws|];
      }
    }
  }

  /** `words` of words separated by any runs of whitespace, with any
      whitespace before and after them, is those words. */
  lemma WordsOfJoin(lead: string, ws: seq<string>, seps: seq<string>, trail: string)
    requires |ws| >= 1 && forall k :: 0 <= k < |ws| ==> IsWord(ws[k])
    requires Separators(seps) && |seps| == |ws| - 1
    requires AllSpace(lead) && AllSpace(trail)
    ensures Words(lead + Join(ws, seps) + trail) == ws
  {
    var t := lead + Join(ws, seps) + trail;
    var ws1, seps1 := PadLead(lead, ws, seps);
    var ws2, seps2 := PadTrail(ws1, seps1, trail);
    assert Join(ws2, seps2) == t;
    PaddedWords(ws, |lead| > 0, |trail| > 0);
    SplitOnSpaceJoin(ws2, seps2);
    assert SplitOnSpace(t) == ws2;
  }


  /** Conversely, a string with words is those words separated by runs of
      whitespace, with whitespace around them; a string without words is all
      whitespace. With `WordsOfJoin` this fixes `words` on every string. */
  lemma WordsDecompose(s: string) returns (lead: string, seps: seq<string>, trail: string)
    ensures |Words(s)| == 0 ==> AllSpace(s)
    ensures |Words(s)| > 0 ==> && AllSpace(lead) && AllSpace(trail) && Separators(seps)
                               && |seps| == |Words(s)| - 1
                               && s == lead + Join(Words(s), seps) + trail
  {
    SplitOnSpaceDecomposes(s);
    lead, seps, trail := TrimDecompose(SplitOnSpace(s), SpaceRuns(s));
  }

  /** What trimming the empty end pieces of joined pieces leaves: the
      trimmed pieces with the outer runs of whitespace around them. */
  lemma TrimDecompose(ws: seq<string>, runs: seq<string>) returns (lead: string, seps: seq<string>, trail: string)
    requires Pieces(ws) && Separators(runs) && |runs| == |ws| - 1
    ensures |TrimEmpty(ws)| == 0 ==> AllSpace(Join(ws, runs))
    ensures |TrimEmpty(ws)| > 0 ==> && AllSpace(lead) && AllSpace(trail) && Separators(seps)
                                    && |seps| == |TrimEmpty(ws)| - 1
                                    && Join(ws, runs) == lead + Join(TrimEmpty(ws), seps) + trail
  {
    var n := |ws|;
    var dl, dt := ws[0] == "", ws[n - 1] == "";
    lead, seps, trail := "", [], "";
    if n == 1 {
      TrimSingle(ws, runs);
    } else if n == 2 && dl && dt {
      TrimTwoEmpty(ws, runs);
    } else {
      lead, seps, trail := TrimGeneral(ws, runs, dl, dt);
    }
  }

  /** A single piece is kept unless it is empty. */
  lemma TrimSingle(ws: seq<string>, runs: seq<string>)
    requires |ws| == 1 && |runs| == 0
    ensures |TrimEmpty(ws)| == 0 ==> ws[0] == ""
    ensures |TrimEmpty(ws)| > 0 ==> TrimEmpty(ws) == ws
    ensures Join(ws, runs) == ws[0]
  {
  }

  /** Two empty pieces around one run: nothing is left. */
  lemma TrimTwoEmpty(ws: seq<string>, runs: seq<string>)
    requires |ws| == 2 && |runs| == 1 && ws[0] == "" && ws[1] == ""
    ensures TrimEmpty(ws) == []
    ensures Join(ws, runs) == runs[0]
  {
    assert Join(ws, runs) == ws[0] + runs[0] + ws[1];
  }

  /** Otherwise the runs next to dropped empty end pieces move out into the
      lead and the trail. */
  lemma TrimGeneral(ws: seq<string>, runs: seq<string>, dl: bool, dt: bool)
    returns (lead: string, seps: seq<string>, trail: string)
    requires |ws| >= 2 && Separators(runs) && |runs| == |ws| - 1
    requires dl == (ws[0] == "") && dt == (ws[|ws| - 1] == "")
    requires !(|ws| == 2 && dl && dt)
    ensures AllSpace(lead) && AllSpace(trail) && Separators(seps)
    ensures |seps| == |TrimEmpty(ws)| - 1
    ensures Join(ws, runs) == lead + Join(TrimEmpty(ws), seps) + trail
  {
    var ws1, runs1;
    ws1, runs1, lead := DropLeadingRun(ws, runs, dl);
    ws1, runs1, trail := DropTrailingRun(ws1, runs1, dt);
    TrimEmptyIsDrop(ws, ws1, dl, dt);
    seps := runs1;
  }

  /** Dropping the empty first piece and then the empty last piece is what
      `TrimEmpty` does. */
  lemma TrimEmptyIsDrop(ws: seq<string>, ws1: seq<string>, dl: bool, dt: bool)
    requires |ws| >= 2 && dl == (ws[0] == "") && dt == (ws[|ws| - 1] == "")
    requires !(|ws| == 2 && dl && dt)
    requires dl && dt ==> ws1 == ws[1..][..|ws| - 2]
    requires dl && !dt ==> ws1 == ws[1..]
    requires !dl && dt ==> ws1 == ws[..|ws| - 1]
    requires !dl && !dt ==> ws1 == ws
    ensures TrimEmpty(ws) == ws1
  {
    if dl && dt {
      assert ws[1..][..|ws| - 2] == ws[1..|ws| - 1];
    } else if !dl && !dt {
      assert ws[0..|ws|] == ws;
    }
  }




  /** Splitting off the run before the second piece when the first piece is
      empty. */
  lemma DropLeadingRun(ws: seq<string>, runs: seq<string>, drop: bool)
    returns (ws': seq<string>, runs': seq<string>, lead: string)
    requires |ws| >= 2 && |runs| == |ws| - 1 && Separators(runs)
    requires drop ==> ws[0] == ""
    ensures ws' == if drop then ws[1..] else ws
    ensures runs' == if drop then runs[1..] else runs
    ensures |ws'| >= 1 && |runs'| == |ws'| - 1 && Separators(runs') && AllSpace(lead)
    ensures Join(ws, runs) == lead + Join(ws', runs')
  {
    if drop {
      ws', runs', lead := ws[1..], runs[1..], runs[0];
      assert Separators(runs') by {
        assert forall k :: 0 <= k < |runs'| ==> runs'[k] == runs[k + 1];
      }
    } else {
      ws', runs', lead := ws, runs, "";
      assert "" + Join(ws, runs) == Join(ws, runs);
    }
  }

  /** Splitting off the run after the last-but-one piece when the last piece
      is empty. */
  lemma DropTrailingRun(ws: seq<string>, runs: seq<string>, drop: bool)
    returns (ws': seq<string>, runs': seq<string>, trail: string)
    requires |ws| >= 1 && |runs| == |ws| - 1 && Separators(runs)
    requires drop ==> |ws| >= 2 && ws[|ws| - 1] == ""
    ensures ws' == if drop then ws[..|ws| - 1] else ws
    ensures runs' == if drop then runs[..|runs| - 1] else runs
    ensures |ws'| >= 1 && |runs'| == |ws'| - 1 && Separators(runs') && AllSpace(trail)
    ensures Join(ws, runs) == Join(ws', runs') + trail
  {
    if drop {
      ws', runs', trail := ws[..|ws| - 1], runs[..|runs| - 1], runs[|runs| - 1];
      assert ws == ws' + [""];
      assert runs == runs' + [trail];
      JoinSnoc(ws', runs', trail, "");
    } else {
      ws', runs', trail := ws, runs, "";
      assert Join(ws, runs) + "" == Join(ws, runs);
    }
  }

  /** Splitting words joined with single spaces gives the words back. */
  lemma SplitOnSpaceUnwords(ws: seq<string>)
    requires |ws| >= 1
    requires forall k :: 0 <= k < |ws| ==> IsWord(ws[k])
    ensures SplitOnSpace(Unwords(ws)) == ws
  {
    SplitOnSpaceJoin(ws, SingleSpaces(|ws| - 1));
  }

  /** `words` undoes `unwords` on a list of words. */
  lemma WordsUnwords(ws: seq<string>)
    requires forall k :: 0 <= k < |ws| ==> IsWord(ws[k])
    ensures Words(Unwords(ws)) == ws
  {
    if |ws| == 0 {
      assert SplitOnSpace("") == [""];
    } else {
      WordsOfJoin("", ws, SingleSpaces(|ws| - 1), "");
      assert "" + Unwords(ws) + "" == Unwords(ws);
    }
  }

  /** Text that is only whitespace has no words. */
  lemma WordsOfSpace(s: string)
    requires AllSpace(s)
    ensures Words(s) == []
  {
    assert SplitOnSpace("") == [""];
    if |s| > 0 {
      assert Chars.FindSpace(s, 0) == 0;
      assert Chars.SkipSpace(s, 0) == |s|;
      assert s[|s|..] == "";
    }
  }

  /** Concatenation regrouped, as a step the solver finds cheaply. */
  lemma AppendAssociative(a: string, b: string, c: string)
    ensures a + (b + c) == a + b + c
  {
  }

  /** `words` ignores whitespace around the text: padding joined words with
      whitespace on either side still gives the words back. */
  lemma WordsIgnorePadding(lead: string, ws: seq<string>, trail: string)
    requires |ws| >= 1
    requires forall k :: 0 <= k < |ws| ==> IsWord(ws[k])
    requires AllSpace(lead) && AllSpace(trail)
    ensures Words(lead + Unwords(ws) + trail) == ws
  {
    WordsOfJoin(lead, ws, SingleSpaces(|ws| - 1), trail);
  }

  /** The example from the documentation of `words`. */
  lemma WordsExample()
    ensures Words(" " + Unwords(["foo", "bar", "baz"]) + " ") == ["foo", "bar", "baz"]
  {
    var ws := ["foo", "bar", "baz"];
    assert IsWord(ws[0]) && IsWord(ws[1]) && IsWord(ws[2]);
    WordsIgnorePadding(" ", ws, " ");
  }

  // ---------------------------------------------------------------------------
  // lines and unlines
  // ---------------------------------------------------------------------------

  /** `s.replace(/\r\n?/g, '\n')`: each CR LF pair and each lone CR becomes
      one LF. */
  function NormalizeNewlines(s: string): (r: string)
    ensures forall i :: 0 <= i < |r| ==> r[i] != '\r'
    ensures (forall i :: 0 <= i < |s| ==> s[i] != '\r') ==> r == s
  {
    if |s| == 0 then ""
    else if s[0] == '\r' then
      (if |s| > 1 && s[1] == '\n' then "\n" + NormalizeNewlines(s[2..])
       else "\n" + NormalizeNewlines(s[1..]))
    else [s[0]] + NormalizeNewlines(s[1..])
  }

  /** Whether a string holds no carriage return. */
  predicate NoCarriageReturn(s: string) {
    forall i :: 0 <= i < |s| ==> s[i] != '\r'
  }

  /** The first step of the replacement, by the character the text starts
      with. */
  lemma NormalizeStep(c: char, s: string)
    ensures c != '\r' ==> NormalizeNewlines([c] + s) == [c] + NormalizeNewlines(s)
    ensures c == '\r' && |s| > 0 && s[0] == '\n' ==>
              NormalizeNewlines([c] + s) == "\n" + NormalizeNewlines(s[1..])
    ensures c == '\r' && (|s| == 0 || s[0] != '\n') ==>
              NormalizeNewlines([c] + s) == "\n" + NormalizeNewlines(s)
  {
    var u := [c] + s;
    assert u[0] == c && u[1..] == s;
    if |s| > 0 {
      assert u[1] == s[0] && u[2..] == s[1..];
    }
  }

  /** Text without a carriage return passes through unchanged, whatever
      follows it. */
  lemma {:induction false} NormalizeKeepsPlainPrefix(l: string, rest: string)
    requires NoCarriageReturn(l)
    ensures NormalizeNewlines(l + rest) == l + NormalizeNewlines(rest)
    decreases |l|
  {
    if |l| == 0 {
      assert l + rest == rest;
    } else {
      var c, more := PlainHead(l);
      NormalizeKeepsPlainPrefix(more, rest);
      NormalizeStep(c, more + rest);
      ConsAppend(c, more, rest);
      ConsAppend(c, more, NormalizeNewlines(rest));
    }
  }

  /** A non-empty text without a carriage return is a first character
      other than CR followed by more such text. */
  lemma PlainHead(l: string) returns (c: char, more: string)
    requires NoCarriageReturn(l) && |l| > 0
    ensures l == [c] + more && c != '\r' && NoCarriageReturn(more)
  {
    c, more := l[0], l[1..];
    assert l == [c] + more;
  }

  /** Concatenation regrouped after a first character. */
  lemma ConsAppend(c: char, a: string, b: string)
    ensures [c] + a + b == [c] + (a + b)
  {
  }

  /** A CR LF pair becomes one LF. */
  lemma NormalizeCRLF(l: string, rest: string)
    requires NoCarriageReturn(l)
    ensures NormalizeNewlines(l + "\r\n" + rest) == l + "\n" + NormalizeNewlines(rest)
  {
    var v := "\n" + rest;
    var u := "\r" + v;
    NormalizeStep('\r', v);
    assert v[0] == '\n' && v[1..] == rest;
    NormalizeKeepsPlainPrefix(l, u);
    assert l + "\r\n" + rest == l + u;
    assert l + ("\n" + NormalizeNewlines(rest)) == l + "\n" + NormalizeNewlines(rest);
  }

  /** A CR that no LF follows becomes one LF. */
  lemma NormalizeLoneCR(l: string, rest: string)
    requires NoCarriageReturn(l)
    requires |rest| == 0 || rest[0] != '\n'
    ensures NormalizeNewlines(l + "\r" + rest) == l + "\n" + NormalizeNewlines(rest)
  {
    var u := "\r" + rest;
    NormalizeStep('\r', rest);
    NormalizeKeepsPlainPrefix(l, u);
    assert l + "\r" + rest == l + u;
    assert l + ("\n" + NormalizeNewlines(rest)) == l + "\n" + NormalizeNewlines(rest);
  }

  /** An LF stays as it is. */
  lemma NormalizeLF(l: string, rest: string)
    requires NoCarriageReturn(l)
    ensures NormalizeNewlines(l + "\n" + rest) == l + "\n" + NormalizeNewlines(rest)
  {
    var u := "\n" + rest;
    NormalizeStep('\n', rest);
    NormalizeKeepsPlainPrefix(l, u);
    assert l + "\n" + rest == l + u;
    assert l + ("\n" + NormalizeNewlines(rest)) == l + "\n" + NormalizeNewlines(rest);
  }

  /** A lone CR and a CR LF pair both become one LF; deleting carriage
      returns would not do. */
  lemma NormalizeNewlinesExamples(a: string, b: string)
    requires a == "a\rb" && b == "a\r\nb"
    ensures NormalizeNewlines(a) == "a\nb"
    ensures NormalizeNewlines(b) == "a\nb"
  {
    NormalizeLoneCR("a", "b");
    assert a == "a" + "\r" + "b";
    NormalizeCRLF("a", "b");
    assert b == "a" + "\r\n" + "b";
    assert NormalizeNewlines("b") == "b";
  }

  /** The first line terminator at or after `p`, or the length. */
  function LineEnd(t: string, p: nat): (e: nat)
    requires p <= |t|
    ensures p <= e <= |t|
    ensures forall j :: p <= j < e ==> !Chars.IsLineTerminator(t[j])
    ensures e < |t| ==> Chars.IsLineTerminator(t[e])
    decreases |t| - p
  {
    if p == |t| || Chars.IsLineTerminator(t[p]) then p else LineEnd(t, p + 1)
  }

  /** The matches of `/^(?=[\s\S]).*\/gm` found by searching from position
      `p`: where a line starts and at least one character follows, the match
      runs to the next line terminator; after an empty match the search
      moves on by one. */
  function MatchLinesFrom(t: string, p: nat): (r: seq<string>)
    requires p <= |t|
    decreases |t| - p
  {
    if p == |t| then []
    else if p == 0 || Chars.IsLineTerminator(t[p - 1]) then
      var e := LineEnd(t, p);
      [t[p..e]] + MatchLinesFrom(t, if e == p then p + 1 else e)
    else MatchLinesFrom(t, p + 1)
  }

  /** `lines`: the matches in the normalized string, or none at all. No
      line it returns holds a line terminator. */
  function Lines(s: string): (r: seq<string>)
    ensures forall k :: 0 <= k < |r| ==> IsLine(r[k])
  {
    var t := NormalizeNewlines(s);
    LinesAreLines(t, 0);
    MatchLinesFrom(t, 0)
  }

  /** `unlines`: each line followed by a line feed, so the text is empty
      exactly when there are no lines and otherwise ends in a line feed.
      `UnlinesSnoc` relates it to the source's left fold. */
  function Unlines(ls: seq<string>): (r: string)
    ensures |r| == 0 <==> |ls| == 0
    ensures |ls| > 0 ==> r[|r| - 1] == '\n'
  {
    if |ls| == 0 then "" else ls[0] + "\n" + Unlines(ls[1..])
  }

  /** The source builds the text by a left fold, appending each line and a
      line feed to what the lines before it gave. */
  lemma {:induction false} UnlinesSnoc(ls: seq<string>, l: string)
    ensures Unlines(ls + [l]) == Unlines(ls) + l + "\n"
    decreases |ls|
  {
    if |ls| == 0 {
      assert ls + [l] == [l];
      assert Unlines([l]) == l + "\n" + Unlines([]);
    } else {
      var first, more := ls[0] + "\n", ls[1..];
      assert (ls + [l])[0] == ls[0];
      assert (ls + [l])[1..] == more + [l];
      assert Unlines(ls + [l]) == first + Unlines(more + [l]);
      UnlinesSnoc(more, l);
      AppendAssociative(first, Unlines(more) + l, "\n");
      AppendAssociative(first, Unlines(more), l);
    }
  }

  /** The pieces between line terminators. */
  function SplitLines(t: string): (r: seq<string>)
    ensures |r| >= 1
    decreases |t|
  {
    var e := LineEnd(t, 0);
    if e == |t| then [t] else [t[..e]] + SplitLines(t[e + 1..])
  }

  /** The pieces, less a final empty one. */
  function DropFinalEmpty(ls: seq<string>): seq<string> {
    if |ls| > 0 && ls[|ls| - 1] == "" then ls[..|ls| - 1] else ls
  }

  /** Whether a line holds no line terminator. */
  predicate IsLine(l: string) {
    forall i :: 0 <= i < |l| ==> !Chars.IsLineTerminator(l[i])
  }

  /** `LineEnd` is the only position with its two properties. */
  lemma {:induction false} LineEndUnique(t: string, p: nat, k: nat)
    requires p <= k <= |t|
    requires forall j :: p <= j < k ==> !Chars.IsLineTerminator(t[j])
    requires k < |t| ==> Chars.IsLineTerminator(t[k])
    ensures LineEnd(t, p) == k
    decreases k - p
  {
    if p < k {
      LineEndUnique(t, p + 1, k);
    }
  }

  lemma LineEndShift(t: string, p: nat)
    requires p <= |t|
    ensures LineEnd(t[p..], 0) == LineEnd(t, p) - p
  {
    var e := LineEnd(t, p);
    var u := t[p..];
    assert forall j :: 0 <= j < e - p ==> u[j] == t[p + j];
    LineEndUnique(u, 0, e - p);
  }

  /** Splitting from `p` when no line terminator follows gives one piece. */
  lemma SplitLinesFromLast(t: string, p: nat)
    requires p <= |t| && LineEnd(t[p..], 0) == |t| - p
    ensures SplitLines(t[p..]) == [t[p..]]
  {
  }

  /** Splitting from `p` takes the piece up to the next line terminator. */
  lemma SplitLinesFromBefore(t: string, p: nat, e: nat)
    requires p <= e < |t| && LineEnd(t[p..], 0) == e - p
    ensures SplitLines(t[p..]) == [t[p..e]] + SplitLines(t[e + 1..])
  {
    SplitLinesAtEnd(t[p..]);
    SliceOfSuffix(t, p, e);
  }

  /** Cutting a suffix of `t` at `e` gives the pieces of `t` on either side
      of `e`. */
  lemma SliceOfSuffix(t: string, p: nat, e: nat)
    requires p <= e < |t|
    ensures t[p..][..e - p] == t[p..e] && t[p..][e - p + 1..] == t[e + 1..]
  {
  }

  lemma SplitLinesAtEnd(u: string)
    requires LineEnd(u, 0) < |u|
    ensures SplitLines(u) == [u[..LineEnd(u, 0)]] + SplitLines(u[LineEnd(u, 0) + 1..])
  {
  }

  /** A search that starts inside a line moves on to the next line start. */
  lemma MatchLinesSkip(t: string, p: nat, e: nat)
    requires p < e < |t| && e == LineEnd(t, p)
    ensures MatchLinesFrom(t, e) == MatchLinesFrom(t, e + 1)
  {
    assert !Chars.IsLineTerminator(t[e - 1]);
  }

  lemma DropFinalEmptyCons(x: string, rest: seq<string>)
    requires |rest| >= 1
    ensures DropFinalEmpty([x] + rest) == [x] + DropFinalEmpty(rest)
  {
    if rest[|rest| - 1] == "" {
      assert ([x] + rest)[..|rest|] == [x] + rest[..|rest| - 1];
    }
  }

  /** At a line start, the last line is the only match left. */
  lemma MatchLastLine(t: string, p: nat)
    requires p < |t| && LineEnd(t, p) == |t|
    requires p == 0 || Chars.IsLineTerminator(t[p - 1])
    ensures MatchLinesFrom(t, p) == DropFinalEmpty(SplitLines(t[p..]))
  {
    LineEndShift(t, p);
    SplitLinesFromLast(t, p);
    MatchLinesAtLast(t, p, |t|);
  }

  lemma MatchLinesAtLast(t: string, p: nat, e: nat)
    requires p < e == |t| && e == LineEnd(t, p)
    requires p == 0 || Chars.IsLineTerminator(t[p - 1])
    ensures MatchLinesFrom(t, p) == [t[p..]]
  {
    assert MatchLinesFrom(t, e) == [];
    assert t[p..e] == t[p..];
    assert [t[p..e]] + [] == [t[p..]];
  }

  /** At a line start followed by a terminator, the search matches up to the
      terminator and resumes after it. */
  lemma MatchLinesAtBefore(t: string, p: nat, e: nat)
    requires p < |t| && e == LineEnd(t, p) < |t|
    requires p == 0 || Chars.IsLineTerminator(t[p - 1])
    ensures MatchLinesFrom(t, p) == [t[p..e]] + MatchLinesFrom(t, e + 1)
  {
    if e > p {
      MatchLinesSkip(t, p, e);
    }
  }

  /** A line followed by a terminator: if the claim holds from the next line
      start, it holds from this one. */
  lemma MatchLineThenRest(t: string, p: nat)
    requires p < |t| && LineEnd(t, p) < |t|
    requires p == 0 || Chars.IsLineTerminator(t[p - 1])
    requires MatchLinesFrom(t, LineEnd(t, p) + 1) == DropFinalEmpty(SplitLines(t[LineEnd(t, p) + 1..]))
    ensures MatchLinesFrom(t, p) == DropFinalEmpty(SplitLines(t[p..]))
  {
    var e := LineEnd(t, p);
    LineEndShift(t, p);
    SplitLinesFromBefore(t, p, e);
    MatchLinesAtBefore(t, p, e);
    DropFinalEmptyCons(t[p..e], SplitLines(t[e + 1..]));
  }

  /** At the end of the text nothing is left to match or to split. */
  lemma MatchLinesAtEnd(t: string, p: nat)
    requires p == |t|
    ensures MatchLinesFrom(t, p) == DropFinalEmpty(SplitLines(t[p..]))
  {
    assert t[p..] == "";
    assert SplitLines("") == [""];
  }

  /** From any line start, the regular-expression matches are the pieces
      between line terminators, less a final empty piece. */
  lemma {:induction false} MatchLinesIsSplit(t: string, p: nat)
    requires p <= |t|
    requires p == 0 || Chars.IsLineTerminator(t[p - 1])
    ensures MatchLinesFrom(t, p) == DropFinalEmpty(SplitLines(t[p..]))
    decreases |t| - p
  {
    if p == |t| {
      MatchLinesAtEnd(t, p);
    } else {
      var e := LineEnd(t, p);
      if e == |t| {
        MatchLastLine(t, p);
      } else {
        MatchLinesIsSplit(t, e + 1);
        MatchLineThenRest(t, p);
      }
    }
  }

  /** `lines` is the split of the normalized string at line terminators,
      less a final empty piece. */
  lemma LinesIsSplit(s: string)
    ensures Lines(s) == DropFinalEmpty(SplitLines(NormalizeNewlines(s)))
  {
    var t := NormalizeNewlines(s);
    MatchLinesIsSplit(t, 0);
    assert t[0..] == t;
  }

  /** The first line of the text `unlines` builds ends at the first line
      feed it writes. */
  lemma UnlinesFirstLine(ls: seq<string>)
    requires |ls| > 0 && IsLine(ls[0])
    ensures LineEnd(Unlines(ls), 0) == |ls[0]| < |Unlines(ls)|
    ensures Unlines(ls)[..|ls[0]|] == ls[0]
    ensures Unlines(ls)[|ls[0]| + 1..] == Unlines(ls[1..])
  {
    var l := ls[0];
    var t := Unlines(ls);
    assert t == l + "\n" + Unlines(ls[1..]);
    assert forall j :: 0 <= j < |l| ==> t[j] == l[j];
    assert t[|l|] == '\n';
    LineEndUnique(t, 0, |l|);
  }

  /** Splitting the text `unlines` builds gives the lines and one empty
      piece after the final line feed. */
  lemma {:induction false} SplitLinesUnlines(ls: seq<string>)
    requires forall k :: 0 <= k < |ls| ==> IsLine(ls[k])
    ensures SplitLines(Unlines(ls)) == ls + [""]
    decreases |ls|
  {
    if |ls| == 0 {
      assert Unlines(ls) == "";
      assert SplitLines("") == [""];
    } else {
      var more := ls[1..];
      SplitLinesUnlinesStep(ls);
      SplitLinesUnlines(more);
      assert ls + [""] == [ls[0]] + (more + [""]);
    }
  }

  /** The text `unlines` builds splits into its first line and the split of
      the text the remaining lines build. */
  lemma SplitLinesUnlinesStep(ls: seq<string>)
    requires |ls| > 0 && IsLine(ls[0])
    ensures SplitLines(Unlines(ls)) == [ls[0]] + SplitLines(Unlines(ls[1..]))
  {
    UnlinesFirstLine(ls);
    SplitLinesAtEnd(Unlines(ls));
  }

  /** Every line `unlines` writes is read back by `lines`, provided no line
      holds a line terminator (or a carriage return, which is one). */
  lemma LinesUnlines(ls: seq<string>)
    requires forall k :: 0 <= k < |ls| ==> IsLine(ls[k])
    ensures Lines(Unlines(ls)) == ls
  {
    UnlinesHasNoCarriageReturn(ls);
    LinesIsSplit(Unlines(ls));
    SplitLinesUnlines(ls);
    assert (ls + [""])[..|ls|] == ls;
  }

  lemma {:induction false} UnlinesHasNoCarriageReturn(ls: seq<string>)
    requires forall k :: 0 <= k < |ls| ==> IsLine(ls[k])
    ensures forall i :: 0 <= i < |Unlines(ls)| ==> Unlines(ls)[i] != '\r'
    decreases |ls|
  {
    if |ls| > 0 {
      UnlinesHasNoCarriageReturn(ls[1..]);
      var t := Unlines(ls);
      assert t == ls[0] + "\n" + Unlines(ls[1..]);
      forall i | 0 <= i < |t|
        ensures t[i] != '\r'
      {
        if i < |ls[0]| {
          assert t[i] == ls[0][i];
        } else if i > |ls[0]| {
          assert t[i] == Unlines(ls[1..])[i - |ls[0]| - 1];
        }
      }
    }
  }

  /** No line `lines` returns holds a line terminator. */
  lemma {:induction false} LinesAreLines(t: string, p: nat)
    requires p <= |t|
    ensures forall k :: 0 <= k < |MatchLinesFrom(t, p)| ==> IsLine(MatchLinesFrom(t, p)[k])
    decreases |t| - p
  {
    if p < |t| {
      if p == 0 || Chars.IsLineTerminator(t[p - 1]) {
        var e := LineEnd(t, p);
        LinesAreLines(t, if e == p then p + 1 else e);
        assert IsLine(t[p..e]);
      } else {
        LinesAreLines(t, p + 1);
      }
    }
  }

  /** The worked examples that accompany `lines`. */
  lemma LinesOfNothing()
    ensures Lines("") == []
    ensures Lines("\n") == [""]
  {
    LinesUnlines([]);
    assert Unlines([]) == "";
    LinesUnlines([""]);
    assert Unlines([""]) == "\n";
  }

  lemma LinesExample(s: string, lf: string)
    requires lf == "\n"
    requires s == "foo" + lf + "bar" + lf + "baz" + lf
    ensures Lines(s) == ["foo", "bar", "baz"]
  {
    var ls := ["foo", "bar", "baz"];
    assert IsLine(ls[0]) && IsLine(ls[1]) && IsLine(ls[2]);
    TerminateThree(ls, lf);
    LinesOfTerminatedLines(ls, lf);
  }

  /** The lines, each followed by the line end `sep`. */
  function TerminateLines(ls: seq<string>, sep: string): string
    decreases |ls|
  {
    if |ls| == 0 then "" else ls[0] + sep + TerminateLines(ls[1..], sep)
  }

  /** A line holds no carriage return. */
  lemma LineHasNoCarriageReturn(l: string)
    requires IsLine(l)
    ensures NoCarriageReturn(l)
  {
    assert Chars.IsLineTerminator('\r');
  }

  /** The text after the first line and its line end does not start with LF
      when each line ends in the same one of the three line ends. */
  lemma TerminatedRestStart(ls: seq<string>, sep: string)
    requires sep == "\n" || sep == "\r\n" || sep == "\r"
    requires forall k :: 0 <= k < |ls| ==> IsLine(ls[k])
    ensures var t := TerminateLines(ls, sep); |t| == 0 || t[0] != '\n' || sep == "\n"
  {
    if |ls| > 0 && |ls[0]| > 0 {
      assert IsLine(ls[0]);
      assert TerminateLines(ls, sep)[0] == ls[0][0];
    }
  }

  /** Whichever of the three line ends `lines` documents ends each line,
      normalizing gives the text `unlines` builds. */
  lemma {:induction false} NormalizeTerminatedLines(ls: seq<string>, sep: string)
    requires sep == "\n" || sep == "\r\n" || sep == "\r"
    requires forall k :: 0 <= k < |ls| ==> IsLine(ls[k])
    ensures NormalizeNewlines(TerminateLines(ls, sep)) == Unlines(ls)
    decreases |ls|
  {
    if |ls| > 0 {
      var l := ls[0];
      var more := ls[1..];
      var rest := TerminateLines(more, sep);
      NormalizeTerminatedLines(more, sep);
      assert IsLine(l);
      LineHasNoCarriageReturn(l);
      assert TerminateLines(ls, sep) == l + sep + rest;
      if sep == "\r\n" {
        NormalizeCRLF(l, rest);
      } else if sep == "\r" {
        TerminatedRestStart(more, sep);
        NormalizeLoneCR(l, rest);
      } else {
        NormalizeLF(l, rest);
      }
    }
  }

  /** `lines` reads lines ended by LF, by CR LF or by a lone CR alike. */
  lemma LinesOfTerminatedLines(ls: seq<string>, sep: string)
    requires sep == "\n" || sep == "\r\n" || sep == "\r"
    requires forall k :: 0 <= k < |ls| ==> IsLine(ls[k])
    ensures Lines(TerminateLines(ls, sep)) == ls
  {
    NormalizeTerminatedLines(ls, sep);
    UnlinesHasNoCarriageReturn(ls);
    LinesUnlines(ls);
  }

  /** Lines ended by CR LF, with tabs kept. */
  lemma LinesCRLFExample(s: string, crlf: string)
    requires crlf == "\r\n"
    requires s == "\tfoo" + crlf + "\tbar" + crlf + "\tbaz" + crlf
    ensures Lines(s) == ["\tfoo", "\tbar", "\tbaz"]
  {
    var ls := ["\tfoo", "\tbar", "\tbaz"];
    assert IsLine(ls[0]) && IsLine(ls[1]) && IsLine(ls[2]);
    TerminateThree(ls, crlf);
    LinesOfTerminatedLines(ls, crlf);
  }

  /** Three lines, each followed by `sep`. */
  lemma TerminateThree(ls: seq<string>, sep: string)
    requires |ls| == 3
    ensures TerminateLines(ls, sep) == ls[0] + sep + ls[1] + sep + ls[2] + sep
  {
    var a, b := ls[1..], ls[2..];
    assert a[1..] == b && b[1..] == [];
    assert TerminateLines(b[1..], sep) == "";
    var tb := TerminateLines(b, sep);
    assert tb == ls[2] + sep + "";
    var ta := TerminateLines(a, sep);
    assert ta == ls[1] + sep + tb;
  }

  // ---------------------------------------------------------------------------
  // regexEscape
  // ---------------------------------------------------------------------------

  /** The characters the source's class `[-[\]{}()*+?.,\\^$|#\s]` names
      before `\s`. */
  const RegexMeta: set<char> :=
    {'-', '[', ']', '{', '}', '(', ')', '*', '+', '?', '.', ',', '\\', '^', '$', '|', '#'}

  predicate IsRegexMeta(c: char) {
    c in RegexMeta
  }

  predicate NeedsEscape(c: char) {
    IsRegexMeta(c) || Chars.IsSpace(c)
  }

  /** `regexEscape`: a backslash before every character of the class. */
  function RegexEscape(s: string): (r: string)
    ensures |s| <= |r| <= 2 * |s|
  {
    if |s| == 0 then ""
    else (if NeedsEscape(s[0]) then ['\\', s[0]] else [s[0]]) + RegexEscape(s[1..])
  }

  /** A pattern every character of which stands for itself: each character
      of the class appears only after a backslash, and each backslash
      escapes such a character. */
  predicate LiteralPattern(r: string)
    decreases |r|
  {
    if |r| == 0 then true
    else if r[0] == '\\' then |r| >= 2 && NeedsEscape(r[1]) && LiteralPattern(r[2..])
    else !NeedsEscape(r[0]) && LiteralPattern(r[1..])
  }

  /** The text a literal pattern matches: the pattern with its escaping
      backslashes removed. */
  function Unescape(r: string): string
    decreases |r|
  {
    if |r| == 0 then ""
    else if r[0] == '\\' && |r| >= 2 then [r[1]] + Unescape(r[2..])
    else [r[0]] + Unescape(r[1..])
  }

  /** The escaped string is a literal pattern. */
  lemma {:induction false} RegexEscapeIsLiteral(s: string)
    ensures LiteralPattern(RegexEscape(s))
    decreases |s|
  {
    if |s| > 0 {
      RegexEscapeIsLiteral(s[1..]);
      var rest := RegexEscape(s[1..]);
      var r := RegexEscape(s);
      assert r[1..] == rest || r[2..] == rest;
    }
  }

  /** The escaped string is a pattern for exactly the original text. */
  lemma {:induction false} UnescapeRegexEscape(s: string)
    ensures Unescape(RegexEscape(s)) == s
    decreases |s|
  {
    if |s| > 0 {
      UnescapeRegexEscape(s[1..]);
      var rest := RegexEscape(s[1..]);
      if NeedsEscape(s[0]) {
        assert RegexEscape(s) == ['\\', s[0]] + rest;
        assert (['\\', s[0]] + rest)[2..] == rest;
      } else {
        assert RegexEscape(s) == [s[0]] + rest;
        assert ([s[0]] + rest)[1..] == rest;
        assert s[0] != '\\';
      }
      assert s == [s[0]] + s[1..];
    }
  }

  /** Every literal pattern is the escaping of the text it matches: escaping
      is a bijection between strings and literal patterns. */
  lemma {:induction false} RegexEscapeUnescape(r: string)
    requires LiteralPattern(r)
    ensures RegexEscape(Unescape(r)) == r
    decreases |r|
  {
    if |r| > 0 {
      if r[0] == '\\' {
        RegexEscapeUnescape(r[2..]);
        var u := Unescape(r);
        assert u == [r[1]] + Unescape(r[2..]);
        assert u[1..] == Unescape(r[2..]);
        assert r == ['\\', r[1]] + r[2..];
      } else {
        RegexEscapeUnescape(r[1..]);
        var u := Unescape(r);
        assert u == [r[0]] + Unescape(r[1..]);
        assert u[1..] == Unescape(r[1..]);
        assert r == [r[0]] + r[1..];
      }
    }
  }

  /** Letters, digits and `=` are neither metacharacters nor whitespace. */
  lemma OrdinaryChar(c: char)
    requires 'A' <= c <= 'Z' || 'a' <= c <= 'z' || '0' <= c <= '9' || c == '='
    ensures !NeedsEscape(c)
  {
  }

  /** Escaping works character by character. */
  lemma RegexEscapeCons(c: char, s: string)
    ensures RegexEscape([c] + s) == (if NeedsEscape(c) then ['\\', c] else [c]) + RegexEscape(s)
  {
    assert ([c] + s)[1..] == s;
  }

  /** Escaping distributes over concatenation. */
  lemma {:induction false} RegexEscapeAppend(a: string, b: string)
    ensures RegexEscape(a + b) == RegexEscape(a) + RegexEscape(b)
    decreases |a|
  {
    if |a| == 0 {
      assert a + b == b;
    } else {
      var e := if NeedsEscape(a[0]) then ['\\', a[0]] else [a[0]];
      assert (a + b)[0] == a[0] && (a + b)[1..] == a[1..] + b;
      RegexEscapeAppend(a[1..], b);
      assert RegexEscape(a + b) == e + (RegexEscape(a[1..]) + RegexEscape(b));
    }
  }

  /** Metacharacters are escaped, letters are not. */
  lemma RegexEscapeExample()
    ensures RegexEscape("{XYZ}*") == "\\{XYZ\\}\\*"
  {
    RegexEscapeLettersThenMeta();
    assert "{XYZ}*" == ['{'] + "XYZ}*";
    RegexEscapeCons('{', "XYZ}*");
  }

  lemma RegexEscapeLettersThenMeta()
    ensures RegexEscape("XYZ}*") == "XYZ\\}\\*"
  {
    assert RegexEscape("}*") == "\\}\\*" by {
      assert "*" == ['*'] + "";
      RegexEscapeCons('*', "");
      assert "}*" == ['}'] + "*";
      RegexEscapeCons('}', "*");
    }
    assert "Z}*" == ['Z'] + "}*";
    OrdinaryChar('Z');
    RegexEscapeCons('Z', "}*");
    assert "YZ}*" == ['Y'] + "Z}*";
    OrdinaryChar('Y');
    RegexEscapeCons('Y', "Z}*");
    assert "XYZ}*" == ['X'] + "YZ}*";
    OrdinaryChar('X');
    RegexEscapeCons('X', "YZ}*");
  }

  /** The example from the documentation of `regexEscape`. */
  lemma RegexEscapeDocExample(s: string)
    requires s == "-=*{XYZ}*=-"
    ensures RegexEscape(s) == "\\-=\\*\\{XYZ\\}\\*=\\-"
  {
    RegexEscapeDocParts(s, "-=*", "{XYZ}*", "=-");
  }

  /** The documentation example cut into the three pieces escaped above. */
  lemma RegexEscapeDocParts(s: string, a: string, b: string, c: string)
    requires a == "-=*" && b == "{XYZ}*" && c == "=-" && s == a + (b + c)
    ensures RegexEscape(s) == "\\-=\\*" + ("\\{XYZ\\}\\*" + "=\\-")
  {
    RegexEscapeThree(a, b, c);
    RegexEscapeDocHead(a);
    RegexEscapeExample();
    RegexEscapeDocTail(c);
  }

  lemma RegexEscapeThree(a: string, b: string, c: string)
    ensures RegexEscape(a + (b + c)) == RegexEscape(a) + (RegexEscape(b) + RegexEscape(c))
  {
    RegexEscapeAppend(b, c);
    RegexEscapeAppend(a, b + c);
  }

  lemma RegexEscapeDocHead(a: string)
    requires a == "-=*"
    ensures RegexEscape(a) == "\\-=\\*"
  {
    assert "*" == ['*'] + "";
    RegexEscapeCons('*', "");
    assert "=*" == ['='] + "*";
    OrdinaryChar('=');
    RegexEscapeCons('=', "*");
    assert a == ['-'] + "=*";
    RegexEscapeCons('-', "=*");
  }

  lemma RegexEscapeDocTail(c: string)
    requires c == "=-"
    ensures RegexEscape(c) == "=\\-"
  {
    assert "-" == ['-'] + "";
    RegexEscapeCons('-', "");
    assert c == ['='] + "-";
    OrdinaryChar('=');
    RegexEscapeCons('=', "-");
  }

  /** Whitespace is escaped too, as the class includes `\s`. */
  lemma RegexEscapeSpaceExample()
    ensures RegexEscape("1 .5") == "1\\ \\.5"
  {
    assert RegexEscape("") == "";
    assert "5" == ['5'] + "";
    OrdinaryChar('5');
    RegexEscapeCons('5', "");
    assert ".5" == ['.'] + "5";
    RegexEscapeCons('.', "5");
    assert " .5" == [' '] + ".5";
    RegexEscapeCons(' ', ".5");
    assert "1 .5" == ['1'] + " .5";
    OrdinaryChar('1');
    RegexEscapeCons('1', " .5");
  }
}
