/**
  The object-name handling of the Google Cloud Storage adapter: how `store` builds the
  object name from an optional directory prefix and a filename, how `fetch` and `write`
  recover the filename from a path with Swift's `split(separator: "/").last`, and how
  `write` recomputes the prefix it re-uploads under with `split(separator: "/").dropLast().joined()`.
 */
module ObjectNames {
  import opened Optional

  const Separator: char := '/'

  /** A piece Swift's `split` can produce: non-empty and free of "/". */
  predicate IsSegment(s: string) {
    s != [] && Separator !in s
  }

  predicate AllSegments(parts: seq<string>) {
    forall i :: 0 <= i < |parts| ==> IsSegment(parts[i])
  }

  /** True when `s` has no character other than "/" (the empty string included). */
  predicate AllSeparators(s: string) {
    forall i :: 0 <= i < |s| ==> s[i] == Separator
  }

  predicate EndsWithSeparator(s: string) {
    |s| > 0 && s[|s| - 1] == Separator
  }

  /** A candidate piece, dropped when empty (Swift's `omittingEmptySubsequences: true`). */
  function Piece(s: string): seq<string> {
    if s == [] then [] else [s]
  }

  /**
    The scan behind `split`: `piece` holds the characters read since the last separator;
    a separator ends the piece, and so does the end of the input.
   */
  function SplitFrom(piece: string, s: string): seq<string>
    decreases |s|
  {
    if s == [] then Piece(piece)
    else if s[0] == Separator then Piece(piece) + SplitFrom([], s[1..])
    else SplitFrom(piece + [s[0]], s[1..])
  }

  /**
    Swift's `s.split(separator: "/")` with its defaults: the maximal runs of characters
    other than "/", in order; leading, trailing and repeated separators give no piece.
   */
  function Split(s: string): seq<string> {
    SplitFrom([], s)
  }

  /** Swift's `.last` on the pieces. */
  function Last(parts: seq<string>): Option<string> {
    if parts == [] then None else Some(parts[|parts| - 1])
  }

  /** Swift's `.dropLast()`: every piece but the last (nothing from nothing). */
  function DropLast(parts: seq<string>): seq<string> {
    if parts == [] then [] else parts[..|parts| - 1]
  }

  /** Swift's `.joined()` on substrings: the pieces concatenated with no separator between them. */
  function Joined(parts: seq<string>): string {
    if parts == [] then [] else parts[0] + Joined(parts[1..])
  }

  /** Swift's `.joined(separator: "/")`: the pieces with one "/" between neighbours. */
  function JoinedWithSeparator(parts: seq<string>): string {
    if |parts| == 0 then []
    else if |parts| == 1 then parts[0]
    else JoinedWithSeparator(parts[..|parts| - 1]) + [Separator] + parts[|parts| - 1]
  }

  /** The characters of `s` other than "/", in order. */
  function WithoutSeparators(s: string): string {
    if s == [] then []
    else (if s[0] == Separator then [] else [s[0]]) + WithoutSeparators(s[1..])
  }

  /**
    The object name `store(file:at:)` uploads to: the filename alone without a prefix,
    the prefix and the filename when the prefix already ends in "/", and otherwise the
    prefix, one "/" and the filename. An empty prefix has no last character, so it
    gives "/" followed by the filename.
   */
  function ObjectName(at: Option<string>, filename: string): (name: string)
    ensures at.None? ==> name == filename
    ensures at.Some? ==> |name| == |at.value| + |filename| + (if EndsWithSeparator(at.value) then 0 else 1)
    ensures |name| >= |filename| && name[|name| - |filename|..] == filename
    ensures at.Some? ==> name[..|at.value|] == at.value
    ensures at.Some? ==> |name| > |filename| && name[|name| - |filename| - 1] == Separator
  {
    match at
    case None => filename
    case Some(prefix) =>
      if EndsWithSeparator(prefix) then
        assert (prefix + filename)[|prefix| - 1] == prefix[|prefix| - 1];
        prefix + filename
      else
        prefix + [Separator] + filename
  }

  /** The filename `fetch(file:)` and `write(file:with:options:)` extract: the last piece of the path, if any. */
  function FileName(path: string): (name: Option<string>)
    ensures name.Some? ==> IsSegment(name.value)
  {
    SplitFromSegments([], path);
    Last(Split(path))
  }

  /** The directory prefix `write` recomputes: every piece but the last, concatenated without separators. */
  function WritePrefix(path: string): (prefix: string)
    ensures Separator !in prefix
  {
    SplitFromSegments([], path);
    JoinedNoSeparator(DropLast(Split(path)));
    Joined(DropLast(Split(path)))
  }

  /** `write` passes an empty prefix to `store` as `nil`. */
  function StorePrefix(prefix: string): (at: Option<string>)
    ensures at.None? <==> prefix == []
    ensures prefix != [] ==> at == Some(prefix)
  {
    if prefix == [] then None else Some(prefix)
  }

  /** The object name `write` re-uploads to, or None when no filename can be extracted. */
  function ReuploadName(path: string): Option<string> {
    match FileName(path)
    case None => None
    case Some(name) => Some(ObjectName(StorePrefix(WritePrefix(path)), name))
  }

  /** The prefix `write` evidently intends: the directory pieces joined back with "/". */
  function IntendedWritePrefix(path: string): string {
    JoinedWithSeparator(DropLast(Split(path)))
  }

  /** The re-upload name with the intended prefix. */
  function IntendedReuploadName(path: string): Option<string> {
    match FileName(path)
    case None => None
    case Some(name) => Some(ObjectName(StorePrefix(IntendedWritePrefix(path)), name))
  }

  // ---------------------------------------------------------------------------
  // Split
  // ---------------------------------------------------------------------------

  /** Every piece of a split is a segment: non-empty and free of "/". */
  lemma {:induction false} SplitFromSegments(piece: string, s: string)
    requires Separator !in piece
    ensures AllSegments(SplitFrom(piece, s))
    decreases |s|
  {
    if s != [] {
      if s[0] == Separator {
        SplitFromSegments([], s[1..]);
      } else {
        SplitFromSegments(piece + [s[0]], s[1..]);
      }
    }
  }

  /** Without separators the scan makes a single piece of everything it reads (none when that is empty). */
  lemma {:induction false} SplitFromWithoutSeparator(piece: string, s: string)
    requires Separator !in s
    ensures SplitFrom(piece, s) == Piece(piece + s)
    decreases |s|
  {
    if s == [] {
      assert piece + s == piece;
    } else {
      assert s == [s[0]] + s[1..];
      SplitFromWithoutSeparator(piece + [s[0]], s[1..]);
      assert piece + [s[0]] + s[1..] == piece + s;
    }
  }

  /** A string without separators is a single piece (no piece when it is empty). */
  lemma SplitWithoutSeparator(s: string)
    requires Separator !in s
    ensures Split(s) == Piece(s)
  {
    SplitFromWithoutSeparator([], s);
    assert [] + s == s;
  }

  /** A separator ends the scan's current piece and starts a fresh scan of what follows. */
  lemma {:induction false} SplitFromAroundSeparator(piece: string, a: string, b: string)
    ensures SplitFrom(piece, a + [Separator] + b) == SplitFrom(piece, a) + Split(b)
    decreases |a|
  {
    var s := a + [Separator] + b;
    if a == [] {
      assert s[0] == Separator && s[1..] == b;
    } else {
      assert s[0] == a[0] && s[1..] == a[1..] + [Separator] + b;
      if a[0] == Separator {
        SplitFromAroundSeparator([], a[1..], b);
      } else {
        SplitFromAroundSeparator(piece + [a[0]], a[1..], b);
      }
    }
  }

  /** Splitting distributes over a separator: `split(a + "/" + b) == split(a) + split(b)`. */
  lemma SplitAroundSeparator(a: string, b: string)
    ensures Split(a + [Separator] + b) == Split(a) + Split(b)
  {
    SplitFromAroundSeparator([], a, b);
  }

  /** Trailing separators are ignored. */
  lemma SplitTrailingSeparator(s: string)
    ensures Split(s + [Separator]) == Split(s)
  {
    SplitAroundSeparator(s, []);
    assert s + [Separator] + [] == s + [Separator];
    SplitWithoutSeparator([]);
  }

  /** The scan yields no piece exactly when its piece is empty and it reads nothing but "/". */
  lemma {:induction false} SplitFromEmptyIff(piece: string, s: string)
    ensures SplitFrom(piece, s) == [] <==> piece == [] && AllSeparators(s)
    decreases |s|
  {
    if s != [] {
      var rest := s[1..];
      assert AllSeparators(s) <==> s[0] == Separator && AllSeparators(rest) by {
        if s[0] == Separator && AllSeparators(rest) {
          forall i | 0 <= i < |s| ensures s[i] == Separator {
            if i > 0 {
              assert s[i] == rest[i - 1];
            }
          }
        }
        if AllSeparators(s) {
          forall i | 0 <= i < |rest| ensures rest[i] == Separator {
            assert rest[i] == s[i + 1];
          }
        }
      }
      if s[0] == Separator {
        SplitFromEmptyIff([], rest);
      } else {
        SplitFromEmptyIff(piece + [s[0]], rest);
      }
    }
  }

  /** Joining with "/" and splitting again gives back the segments. */
  lemma {:induction false} SplitJoinedWithSeparator(parts: seq<string>)
    requires AllSegments(parts)
    ensures Split(JoinedWithSeparator(parts)) == parts
    decreases |parts|
  {
    if |parts| == 0 {
      SplitWithoutSeparator([]);
    } else if |parts| == 1 {
      SplitWithoutSeparator(parts[0]);
    } else {
      var init, last := parts[..|parts| - 1], parts[|parts| - 1];
      SplitJoinedWithSeparator(init);
      SplitAroundSeparator(JoinedWithSeparator(init), last);
      SplitWithoutSeparator(last);
      assert init + [last] == parts;
    }
  }

  // ---------------------------------------------------------------------------
  // Joined: the pieces' characters are exactly the path's non-separator characters
  // ---------------------------------------------------------------------------

  /** Pieces without separators join into a string without separators. */
  lemma {:induction false} JoinedNoSeparator(parts: seq<string>)
    requires forall i :: 0 <= i < |parts| ==> Separator !in parts[i]
    ensures Separator !in Joined(parts)
    decreases |parts|
  {
    if parts != [] {
      JoinedNoSeparator(parts[1..]);
    }
  }

  /** Non-empty pieces join into the empty string only when there are none. */
  lemma JoinedEmptyIff(parts: seq<string>)
    requires AllSegments(parts)
    ensures Joined(parts) == [] <==> parts == []
  {
    if parts != [] {
      assert |Joined(parts)| >= |parts[0]| > 0;
    }
  }

  lemma {:induction false} JoinedAppend(a: seq<string>, b: seq<string>)
    ensures Joined(a + b) == Joined(a) + Joined(b)
    decreases |a|
  {
    if a == [] {
      assert a + b == b;
    } else {
      assert (a + b)[0] == a[0];
      assert (a + b)[1..] == a[1..] + b;
      JoinedAppend(a[1..], b);
    }
  }

  lemma JoinedPiece(s: string)
    ensures Joined(Piece(s)) == s
  {
    if s != [] {
      assert Joined([s]) == s + Joined([]);
    }
  }

  lemma {:induction false} WithoutSeparatorsIdentity(s: string)
    requires Separator !in s
    ensures WithoutSeparators(s) == s
    decreases |s|
  {
    if s != [] {
      assert Separator !in s[1..] by {
        forall i | 0 <= i < |s[1..]| ensures s[1..][i] != Separator {
          assert s[1..][i] == s[i + 1];
        }
      }
      WithoutSeparatorsIdentity(s[1..]);
    }
  }

  /** `split` loses only separators: the pieces concatenated are the piece so far and then the input without its "/" characters. */
  lemma {:induction false} JoinedSplitFrom(piece: string, s: string)
    ensures Joined(SplitFrom(piece, s)) == piece + WithoutSeparators(s)
    decreases |s|
  {
    JoinedPiece(piece);
    if s == [] {
      assert piece + [] == piece;
    } else if s[0] == Separator {
      JoinedAppend(Piece(piece), SplitFrom([], s[1..]));
      JoinedSplitFrom([], s[1..]);
      assert [] + WithoutSeparators(s[1..]) == WithoutSeparators(s[1..]);
    } else {
      JoinedSplitFrom(piece + [s[0]], s[1..]);
      assert piece + [s[0]] + WithoutSeparators(s[1..]) == piece + ([s[0]] + WithoutSeparators(s[1..]));
    }
  }

  /** The write prefix's characters: `split` then `joined()` deletes the separators. */
  lemma JoinedSplit(s: string)
    ensures Joined(Split(s)) == WithoutSeparators(s)
  {
    JoinedSplitFrom([], s);
    assert [] + WithoutSeparators(s) == WithoutSeparators(s);
  }

  /** Deleting separators distributes over concatenation around a separator. */
  lemma {:induction false} WithoutSeparatorsAround(a: string, b: string)
    ensures WithoutSeparators(a + [Separator] + b) == WithoutSeparators(a) + WithoutSeparators(b)
    decreases |a|
  {
    var s := a + [Separator] + b;
    if a == [] {
      assert s[0] == Separator && s[1..] == b;
    } else {
      assert s[0] == a[0] && s[1..] == a[1..] + [Separator] + b;
      WithoutSeparatorsAround(a[1..], b);
    }
  }

  // ---------------------------------------------------------------------------
  // Filename extraction (fetch, write)
  // ---------------------------------------------------------------------------

  /** Extraction fails exactly when the path has no character other than "/" ("" and "///" among them). */
  lemma FileNameFailsIff(path: string)
    ensures FileName(path).None? <==> AllSeparators(path)
  {
    SplitFromEmptyIff([], path);
  }

  /** Trailing separators do not change the extracted filename. */
  lemma FileNameIgnoresTrailingSeparator(path: string)
    ensures FileName(path + [Separator]) == FileName(path)
  {
    SplitTrailingSeparator(path);
  }

  /** The filename is the segment after the last separator. */
  lemma FileNameAfterSeparator(dir: string, name: string)
    requires IsSegment(name)
    ensures FileName(dir + [Separator] + name) == Some(name)
  {
    SplitAroundSeparator(dir, name);
    SplitWithoutSeparator(name);
  }

  /** A path with no separator is its own filename. */
  lemma FileNameOfSegment(name: string)
    requires IsSegment(name)
    ensures FileName(name) == Some(name)
  {
    SplitWithoutSeparator(name);
  }

  /**
    Round trip between `store` and `fetch`: whatever the prefix, the filename extracted
    from the object name `store` builds is the filename that was stored.
   */
  lemma FileNameOfObjectName(at: Option<string>, filename: string)
    requires IsSegment(filename)
    ensures FileName(ObjectName(at, filename)) == Some(filename)
  {
    match at
    case None =>
      FileNameOfSegment(filename);
    case Some(prefix) =>
      if EndsWithSeparator(prefix) {
        var dir := prefix[..|prefix| - 1];
        assert prefix + filename == dir + [Separator] + filename;
        FileNameAfterSeparator(dir, filename);
      } else {
        FileNameAfterSeparator(prefix, filename);
      }
  }

  /**
    The round trip holds for segment filenames and for no other: a filename that is empty
    or contains "/" (both of which `store` accepts) is not what `fetch` extracts back.
   */
  lemma FileNameOfObjectNameIff(at: Option<string>, filename: string)
    ensures FileName(ObjectName(at, filename)) == Some(filename) <==> IsSegment(filename)
  {
    if IsSegment(filename) {
      FileNameOfObjectName(at, filename);
    }
  }

  // ---------------------------------------------------------------------------
  // The prefix `write` re-uploads under
  // ---------------------------------------------------------------------------

  /** The write prefix is the directory part of the path with its separators deleted. */
  lemma WritePrefixOfPath(dir: string, name: string)
    requires IsSegment(name)
    ensures WritePrefix(dir + [Separator] + name) == WithoutSeparators(dir)
  {
    SplitAroundSeparator(dir, name);
    SplitWithoutSeparator(name);
    assert DropLast(Split(dir) + [name]) == Split(dir);
    JoinedSplit(dir);
  }

  /** A path without separators has no write prefix, so it is re-uploaded without one. */
  lemma WritePrefixOfSegment(name: string)
    requires IsSegment(name)
    ensures WritePrefix(name) == []
  {
    SplitWithoutSeparator(name);
  }

  /** The write prefix is empty, so `store` gets `nil`, exactly when the path has at most one piece. */
  lemma WritePrefixEmptyIff(path: string)
    ensures WritePrefix(path) == [] <==> |Split(path)| <= 1
  {
    var parts := Split(path);
    SplitFromSegments([], path);
    var init := DropLast(parts);
    assert AllSegments(init) by {
      forall j | 0 <= j < |init| ensures IsSegment(init[j]) {
        assert init[j] == parts[j];
      }
    }
    JoinedEmptyIff(init);
  }

  /** The re-upload keeps the filename: `fetch` of the new object extracts the name `write` extracted. */
  lemma ReuploadKeepsFileName(path: string)
    requires FileName(path).Some?
    ensures ReuploadName(path).Some?
    ensures FileName(ReuploadName(path).value) == FileName(path)
  {
    FileNameOfObjectName(StorePrefix(WritePrefix(path)), FileName(path).value);
  }

  /** A path with exactly one separator, neither first nor last. */
  predicate OneInnerSeparator(path: string) {
    exists i :: 0 < i < |path| - 1 && path[i] == Separator && Separator !in path[..i] && Separator !in path[i + 1..]
  }

  /** A path of one segment, or of two segments around one separator, is re-uploaded under itself. */
  lemma ReuploadKeepsSimplePath(path: string)
    requires Separator !in path || OneInnerSeparator(path)
    requires FileName(path).Some?
    ensures ReuploadName(path) == Some(path)
  {
    if Separator !in path {
      SplitWithoutSeparator(path);
      ReuploadKeepsSegment(path);
    } else {
      var i :| 0 < i < |path| - 1 && path[i] == Separator && Separator !in path[..i] && Separator !in path[i + 1..];
      var dir, file := path[..i], path[i + 1..];
      assert path == dir + [Separator] + file;
      ReuploadKeepsTwoSegments(dir, file);
    }
  }

  /** Any other path is re-uploaded under a different name. */
  lemma ReuploadMovesOtherPaths(path: string)
    requires FileName(path).Some? && ReuploadName(path) == Some(path)
    ensures Separator !in path || OneInnerSeparator(path)
  {
    var parts := Split(path);
    var name := FileName(path).value;
    var prefix := WritePrefix(path);
    assert name == parts[|parts| - 1];
    assert path == ObjectName(StorePrefix(prefix), name);
    if |parts| == 1 {
      assert DropLast(parts) == [];
      assert path == name;
    } else {
      var init := DropLast(parts);
      SplitFromSegments([], path);
      assert AllSegments(init) by {
        forall j | 0 <= j < |init| ensures IsSegment(init[j]) {
          assert init[j] == parts[j];
        }
      }
      JoinedEmptyIff(init);
      assert StorePrefix(prefix) == Some(prefix);
      assert !EndsWithSeparator(prefix) by {
        assert prefix[|prefix| - 1] in prefix;
      }
      assert path == prefix + [Separator] + name;
      var i := |prefix|;
      assert path[..i] == prefix && path[i + 1..] == name;
      assert 0 < i < |path| - 1 && path[i] == Separator;
    }
  }

  /**
    `write` re-uploads under the path it deleted exactly when that path has no separator,
    or is "p/name" with a single separator between two segments; every other path moves.
   */
  lemma ReuploadKeepsPathIff(path: string)
    requires FileName(path).Some?
    ensures ReuploadName(path) == Some(path) <==> (Separator !in path || OneInnerSeparator(path))
  {
    if Separator !in path || OneInnerSeparator(path) {
      ReuploadKeepsSimplePath(path);
    }
    if ReuploadName(path) == Some(path) {
      ReuploadMovesOtherPaths(path);
    }
  }

  /** A path with one inner separator splits into exactly two pieces. */
  lemma OneInnerSeparatorSplit(path: string)
    ensures OneInnerSeparator(path) ==> |Split(path)| == 2
  {
    if OneInnerSeparator(path) {
      var i :| 0 < i < |path| - 1 && path[i] == Separator && Separator !in path[..i] && Separator !in path[i + 1..];
      assert path == path[..i] + [Separator] + path[i + 1..];
      SplitAroundSeparator(path[..i], path[i + 1..]);
      SplitWithoutSeparator(path[..i]);
      SplitWithoutSeparator(path[i + 1..]);
    }
  }

  /**
    For paths built from segments, the re-upload keeps the path exactly when it has at
    most two segments: "a/b/c.md" is re-uploaded under a different name.
   */
  lemma ReuploadKeepsJoinedPathIff(parts: seq<string>)
    requires AllSegments(parts) && parts != []
    ensures ReuploadName(JoinedWithSeparator(parts)) == Some(JoinedWithSeparator(parts)) <==> |parts| <= 2
  {
    if |parts| <= 2 {
      ReuploadKeepsShortJoinedPath(parts);
    } else {
      ReuploadMovesLongJoinedPath(parts);
    }
  }

  /** One or two segments joined with "/" are re-uploaded under the same name. */
  lemma ReuploadKeepsShortJoinedPath(parts: seq<string>)
    requires AllSegments(parts) && 1 <= |parts| <= 2
    ensures ReuploadName(JoinedWithSeparator(parts)) == Some(JoinedWithSeparator(parts))
  {
    if |parts| == 1 {
      ReuploadKeepsSegment(parts[0]);
    } else {
      assert JoinedWithSeparator(parts) == parts[0] + [Separator] + parts[1];
      ReuploadKeepsTwoSegments(parts[0], parts[1]);
    }
  }

  /** A path of one segment is re-uploaded under itself. */
  lemma ReuploadKeepsSegment(name: string)
    requires IsSegment(name)
    ensures ReuploadName(name) == Some(name)
  {
    FileNameOfSegment(name);
    WritePrefixOfSegment(name);
  }

  /** A path "dir/name" of two segments is re-uploaded under itself. */
  lemma ReuploadKeepsTwoSegments(dir: string, name: string)
    requires IsSegment(dir) && IsSegment(name)
    ensures ReuploadName(dir + [Separator] + name) == Some(dir + [Separator] + name)
  {
    FileNameAfterSeparator(dir, name);
    WritePrefixOfPath(dir, name);
    WithoutSeparatorsIdentity(dir);
    assert !EndsWithSeparator(dir) by {
      assert dir[|dir| - 1] in dir;
    }
  }

  /** Three or more segments joined with "/" are re-uploaded under a different name. */
  lemma ReuploadMovesLongJoinedPath(parts: seq<string>)
    requires AllSegments(parts) && |parts| >= 3
    ensures ReuploadName(JoinedWithSeparator(parts)) != Some(JoinedWithSeparator(parts))
  {
    var path := JoinedWithSeparator(parts);
    SplitJoinedWithSeparator(parts);
    var init := parts[..|parts| - 1];
    assert path == JoinedWithSeparator(init) + [Separator] + parts[|parts| - 1];
    assert path[|JoinedWithSeparator(init)|] == Separator;
    if ReuploadName(path) == Some(path) {
      ReuploadMovesOtherPaths(path);
      OneInnerSeparatorSplit(path);
    }
  }

  /** Concrete case: "markdown/test.md" has the write prefix "markdown" and is re-uploaded under itself. */
  lemma WritePrefixOfMarkdownPath(path: string)
    requires path == "markdown/test.md"
    ensures WritePrefix(path) == "markdown"
    ensures ReuploadName(path) == Some(path)
  {
    var dir, name := "markdown", "test.md";
    assert path == dir + [Separator] + name;
    WritePrefixOfPath(dir, name);
    WithoutSeparatorsIdentity(dir);
    ReuploadKeepsTwoSegments(dir, name);
  }

  /** Concrete case: "a/b/c.md" has the write prefix "ab" and is re-uploaded as "ab/c.md". */
  lemma WritePrefixOfNestedPath(path: string)
    requires path == "a/b/c.md"
    ensures WritePrefix(path) == "ab"
    ensures ReuploadName(path) == Some("ab/c.md")
  {
    var dir, name := "a/b", "c.md";
    assert path == dir + [Separator] + name;
    FileNameAfterSeparator(dir, name);
    WritePrefixOfPath(dir, name);
    assert dir == "a" + [Separator] + "b";
    WithoutSeparatorsAround("a", "b");
    WithoutSeparatorsIdentity("a");
    WithoutSeparatorsIdentity("b");
    assert !EndsWithSeparator("ab");
    assert "ab" + [Separator] + name == "ab/c.md";
  }

  /** With the intended prefix, `write` re-uploads under the path with its separators normalised. */
  lemma IntendedReuploadNormalizes(path: string)
    requires FileName(path).Some?
    ensures IntendedReuploadName(path) == Some(JoinedWithSeparator(Split(path)))
  {
    var parts := Split(path);
    var k := |parts|;
    SplitFromSegments([], path);
    if k >= 2 {
      var init := parts[..k - 1];
      assert init == parts[..|parts| - 1];
      assert AllSegments(init) by {
        forall j | 0 <= j < |init| ensures IsSegment(init[j]) {
          assert init[j] == parts[j];
        }
      }
      var prefix := JoinedWithSeparator(init);
      SplitJoinedWithSeparator(init);
      assert prefix != [] by {
        if prefix == [] {
          SplitWithoutSeparator([]);
        }
      }
      assert !EndsWithSeparator(prefix) by {
        var init' := init[..|init| - 1];
        if |init| == 1 {
          assert prefix == init[0];
        } else {
          assert prefix == JoinedWithSeparator(init') + [Separator] + init[|init| - 1];
        }
      }
    }
  }

  /** With the intended prefix, every path built from segments survives `write` unchanged. */
  lemma IntendedReuploadKeepsPath(parts: seq<string>)
    requires AllSegments(parts) && parts != []
    ensures IntendedReuploadName(JoinedWithSeparator(parts)) == Some(JoinedWithSeparator(parts))
  {
    SplitJoinedWithSeparator(parts);
    IntendedReuploadNormalizes(JoinedWithSeparator(parts));
  }
}
