/** Filename handling shared by `CheapSoundFile.create` and
    `CheapSoundFile.isFilenameSupported`: lower-casing, Java's
    `String.split("\\.")` and the choice of the last component as the
    extension. */
module FileNames {
  import opened Wrappers

  /** `Character.toLowerCase` restricted to ASCII letters. */
  function LowerChar(c: char): char {
    if 'A' <= c <= 'Z' then (c as int - 'A' as int + 'a' as int) as char else c
  }

  /** `String.toLowerCase`, ASCII only. */
  function Lower(s: string): (r: string)
    ensures |r| == |s|
    ensures forall k :: 0 <= k < |s| ==> r[k] == LowerChar(s[k])
  {
    if s == [] then [] else Lower(s[..|s| - 1]) + [LowerChar(s[|s| - 1])]
  }

  /** The pieces joined back together with a dot between neighbours: the
      inverse of `Pieces`. */
  function JoinDots(ps: seq<string>): string {
    if ps == [] then []
    else if |ps| == 1 then ps[0]
    else JoinDots(ps[..|ps| - 1]) + ['.'] + ps[|ps| - 1]
  }

  /** Joining one more, empty, piece appends a dot. */
  lemma JoinEmptyPiece(front: seq<string>)
    requires |front| >= 1
    ensures JoinDots(front + [[]]) == JoinDots(front) + ['.']
  {
    var ps := front + [[]];
    assert ps[..|ps| - 1] == front;
  }

  /** Extending the last piece by a character extends the joined string by
      it. */
  lemma JoinExtendLast(front: seq<string>, c: char)
    requires |front| >= 1
    ensures JoinDots(front[..|front| - 1] + [front[|front| - 1] + [c]]) == JoinDots(front) + [c]
  {
    var ps := front[..|front| - 1] + [front[|front| - 1] + [c]];
    assert ps[..|ps| - 1] == front[..|front| - 1];
    if |front| > 1 {
      assert front[..|front| - 1][..|front| - 2] == front[..|front| - 2];
    }
  }

  /** All pieces of `s` between dots, empty ones included; one more piece
      than there are dots. No piece contains a dot, and joining the pieces
      with dots gives `s` back. */
  function Pieces(s: string): (ps: seq<string>)
    ensures |ps| >= 1
    ensures forall k :: 0 <= k < |ps| ==> '.' !in ps[k]
    ensures JoinDots(ps) == s
  {
    if s == [] then [[]]
    else
      var front := Pieces(s[..|s| - 1]);
      var c := s[|s| - 1];
      assert s == s[..|s| - 1] + [c];
      if c == '.' then
        JoinEmptyPiece(front);
        front + [[]]
      else
        JoinExtendLast(front, c);
        front[..|front| - 1] + [front[|front| - 1] + [c]]
  }

  /** Removes the empty strings at the end of a list, as `split` does when
      no limit is given. */
  function DropTrailingEmpty(ps: seq<string>): (r: seq<string>)
    ensures |r| <= |ps| && r == ps[..|r|]
    ensures r == [] || r[|r| - 1] != []
    ensures forall k :: |r| <= k < |ps| ==> ps[k] == []
  {
    if ps == [] then []
    else if ps[|ps| - 1] == [] then DropTrailingEmpty(ps[..|ps| - 1])
    else ps
  }

  /** Dropping empty pieces at the end only drops dots at the end of the
      joined string. */
  lemma {:induction false} JoinDropped(ps: seq<string>)
    ensures var j, all := JoinDots(DropTrailingEmpty(ps)), JoinDots(ps);
      |j| <= |all| && j == all[..|j|] && forall k :: |j| <= k < |all| ==> all[k] == '.'
  {
    if ps != [] && ps[|ps| - 1] == [] {
      var front := ps[..|ps| - 1];
      JoinDropped(front);
    }
  }

  /** `s.split("\\.")`: a string without a dot is returned whole; otherwise
      the pieces between dots, without trailing empty ones. No component
      contains a dot, and joining the components with dots gives `s` back
      except for the dots at its end. */
  function Split(s: string): (r: seq<string>)
    ensures forall k :: 0 <= k < |r| ==> '.' !in r[k]
    ensures '.' in s ==> r == [] || r[|r| - 1] != []
    ensures var j := JoinDots(r);
      |j| <= |s| && j == s[..|j|] && forall k :: |j| <= k < |s| ==> s[k] == '.'
  {
    if '.' !in s then [s]
    else
      var ps := Pieces(s);
      JoinDropped(ps);
      DropTrailingEmpty(ps)
  }

  /** The extension as the source computes it: the last component of the
      split lower-cased name, provided there are at least two components. */
  function LastComponent(name: string): (r: Option<string>)
    ensures r.Some? ==> '.' in name && r.value != [] && '.' !in r.value
  {
    var components := Split(Lower(name));
    if |components| < 2 then None else Some(components[|components| - 1])
  }

  /** `s` with all dots at its end removed. */
  function TrimDots(s: string): (t: string)
    ensures t == [] || t[|t| - 1] != '.'
    ensures |t| <= |s| && t == s[..|t|]
    ensures forall k :: |t| <= k < |s| ==> s[k] == '.'
  {
    if s != [] && s[|s| - 1] == '.' then TrimDots(s[..|s| - 1]) else s
  }

  /** The characters after the last dot of `s` (all of `s` if it has none). */
  function AfterLastDot(s: string): (r: string)
    ensures '.' !in r
  {
    if s == [] || s[|s| - 1] == '.' then [] else AfterLastDot(s[..|s| - 1]) + [s[|s| - 1]]
  }

  /** Reference definition of a name's extension: ignore the dots at the end
      of the name; if a dot remains, the extension is the lower-cased text
      after the last one. */
  function ExtensionOf(name: string): Option<string> {
    var t := TrimDots(Lower(name));
    if '.' in t then Some(AfterLastDot(t)) else None
  }

  lemma {:induction false} PiecesOfTrailingDots(s: string)
    ensures DropTrailingEmpty(Pieces(s)) == DropTrailingEmpty(Pieces(TrimDots(s)))
    decreases |s|
  {
    if s != [] && s[|s| - 1] == '.' {
      var ps := Pieces(s);
      assert ps[..|ps| - 1] == Pieces(s[..|s| - 1]);
      PiecesOfTrailingDots(s[..|s| - 1]);
    }
  }

  /** For a string not ending in a dot, the last piece is the text after
      the last dot, and there are at least two pieces exactly when there is
      a dot. */
  lemma {:induction false} PiecesShape(t: string)
    requires t == [] || t[|t| - 1] != '.'
    ensures Pieces(t)[|Pieces(t)| - 1] == AfterLastDot(t)
    ensures |Pieces(t)| >= 2 <==> '.' in t
    decreases |t|
  {
    if t != [] {
      var front, c := t[..|t| - 1], t[|t| - 1];
      assert t == front + [c];
      var f := Pieces(front);
      assert Pieces(t) == f[..|f| - 1] + [f[|f| - 1] + [c]];
      assert AfterLastDot(t) == AfterLastDot(front) + [c];
      assert '.' in t <==> '.' in front;
      if front == [] {
      } else if front[|front| - 1] == '.' {
        assert front == front[..|front| - 1] + ['.'];
        assert '.' in front;
        assert f[|f| - 1] == [];
      } else {
        PiecesShape(front);
      }
    }
  }

  /** Splitting a name with a dot ignores the dots at its end. */
  lemma SplitTrimmed(s: string)
    requires '.' in s
    ensures Split(s) == DropTrailingEmpty(Pieces(TrimDots(s)))
  {
    PiecesOfTrailingDots(s);
  }

  /** A string that ends in something other than a dot keeps all its
      pieces when split. */
  lemma NoTrailingEmpty(t: string)
    requires t != [] && t[|t| - 1] != '.'
    ensures DropTrailingEmpty(Pieces(t)) == Pieces(t)
  {
    PiecesShape(t);
    AfterLastDotNonEmpty(t);
  }

  /** The source's split-based extension agrees with the reference
      definition for every name. */
  lemma LastComponentIsExtension(name: string)
    ensures LastComponent(name) == ExtensionOf(name)
  {
    var s := Lower(name);
    var t := TrimDots(s);
    if '.' in s {
      SplitTrimmed(s);
      if t != [] {
        NoTrailingEmpty(t);
        PiecesShape(t);
      } else {
        assert Pieces(t) == [[]];
      }
    } else {
      assert s == [] || s[|s| - 1] in s;
      assert t == s;
    }
  }

  lemma AfterLastDotNonEmpty(t: string)
    requires t != [] && t[|t| - 1] != '.'
    ensures AfterLastDot(t) != []
  {
  }

  /** Only the lower-cased name matters: names that differ in the case of
      their letters resolve to the same extension. */
  lemma ExtensionIgnoresCase(a: string, b: string)
    requires |a| == |b|
    requires forall k :: 0 <= k < |a| ==> LowerChar(a[k]) == LowerChar(b[k])
    ensures LastComponent(a) == LastComponent(b)
  {
    assert Lower(a) == Lower(b);
  }

  /** A name without upper-case letters is its own lower-cased form. */
  lemma LowerOfLowerCase(s: string)
    requires forall k :: 0 <= k < |s| ==> !('A' <= s[k] <= 'Z')
    ensures Lower(s) == s
  {
  }

  lemma LowerExample()
    ensures Lower("song.MP3") == "song.mp3"
  {
    var t := "song.mp3";
    var u := Lower("song.MP3");
    assert |u| == |t|;
    forall k | 0 <= k < |t| ensures u[k] == t[k] {
      assert u[k] == LowerChar("song.MP3"[k]);
    }
  }

  lemma PlainExtensionExample()
    ensures ExtensionOf("song.mp3") == Some("mp3")
  {
    var t := "song.mp3";
    LowerOfLowerCase(t);
    assert TrimDots(t) == t;
    assert t[..7] == "song.mp" && t[..6] == "song.m" && t[..5] == "song.";
    assert AfterLastDot("song.") == [];
    assert AfterLastDot("song.m") == "m";
    assert AfterLastDot("song.mp") == "mp";
    assert AfterLastDot(t) == "mp3";
    assert t[4] == '.';
  }

  /** Examples of the resolution rule. */
  lemma ExtensionIgnoresCaseExample()
    ensures ExtensionOf("song.MP3") == ExtensionOf("song.mp3") == Some("mp3")
  {
    LowerExample();
    PlainExtensionExample();
    LowerOfLowerCase("song.mp3");
  }

  lemma TrailingDotsExample()
    ensures ExtensionOf("a.mp3..") == Some("mp3")
  {
    var s := "a.mp3..";
    LowerOfLowerCase(s);
    assert s[..6] == "a.mp3." && s[..6][..5] == "a.mp3";
    var t := "a.mp3";
    assert TrimDots(s) == t;
    assert t[1] == '.';
    assert t[..4] == "a.mp";
    assert t[..3] == "a.m";
    assert t[..2] == "a.";
    assert AfterLastDot("a.") == [];
    assert AfterLastDot("a.m") == "m";
    assert AfterLastDot("a.mp") == "mp";
    assert AfterLastDot(t) == "mp3";
    assert '.' in t;
  }

  lemma TrailingDotExample()
    ensures ExtensionOf("mp3.") == None
  {
    LowerOfLowerCase("mp3.");
    assert "mp3."[..3] == "mp3";
    assert TrimDots("mp3.") == "mp3";
  }

  lemma OnlyDotsExample()
    ensures ExtensionOf("...") == None
  {
    LowerOfLowerCase("...");
    assert "..."[..2] == "..";
    assert ".."[..1] == ".";
    assert "."[..0] == "";
    assert TrimDots("...") == [];
  }

  lemma NoDotExample()
    ensures ExtensionOf("noext") == None
  {
    LowerOfLowerCase("noext");
  }
}
