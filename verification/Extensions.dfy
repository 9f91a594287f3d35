// Extensions of base/file_path.cc: what Extension finds, as parts between dots, and
// InsertBeforeExtension, which puts a suffix into the file name in front of it.

module Extensions {
  import opened Paths

  // ---------- What the extension is ----------

  // A file name, split at its dots.
  function Parts(s: string): (r: seq<string>)
    ensures r != []
  {
    if s == "" then [""]
    else
      var before, c := Parts(s[..|s| - 1]), s[|s| - 1];
      if c == EXTENSION_SEPARATOR then before + [""]
      else before[..|before| - 1] + [before[|before| - 1] + [c]]
  }

  // The extension by parts: the last one, and the one before it if that has one to four characters, is
  // not the first and the last one is a common second extension.
  function ExtensionByParts(name: string): string {
    var parts := Parts(name);
    var n := |parts|;
    if IsSpecial(name) || n == 1 then ""
    else if n >= 3 && IsCommonDoubleExtension(parts[n - 1]) && 1 <= |parts[n - 2]| <= 4
    then "." + parts[n - 2] + "." + parts[n - 1]
    else "." + parts[n - 1]
  }

  lemma PartsStep(init: string, c: char)
    ensures var before := Parts(init);
      Parts(init + [c]) ==
        if c == EXTENSION_SEPARATOR then before + [""]
        else before[..|before| - 1] + [before[|before| - 1] + [c]]
    ensures Parts("") == [""]
  {
    assert (init + [c])[..|init|] == init;
  }

  // Where the last dot of a longer string is, and how the string splits there.
  lemma LastDotStep(init: string, c: char)
    ensures var s, k := init + [c], LastDot(init + [c]);
      if c == EXTENSION_SEPARATOR then k == |init| && s[..k] == init && s[k + 1..] == ""
      else k == LastDot(init) && (k >= 0 ==> s[..k] == init[..k] && s[k + 1..] == init[k + 1..] + [c])
  {
    hide LastDot;
    var s := init + [c];
    if c == EXTENSION_SEPARATOR {
      LastDotIs(s, |init|);
    } else {
      LastDotIs(s, LastDot(init));
    }
  }

  // The last part is what follows the last dot; the others are the parts of what precedes it.
  lemma {:induction false} LastPart(s: string)
    ensures var k, parts := LastDot(s), Parts(s);
      if k == -1 then parts == [s]
      else parts == Parts(s[..k]) + [s[k + 1..]]
  {
    hide LastDot, Parts;
    PartsStep("", 'x');
    if s != "" {
      var init, c := s[..|s| - 1], s[|s| - 1];
      assert s == init + [c];
      LastPart(init);
      PartsStep(init, c);
      LastDotStep(init, c);
    } else {
      LastDotIs("", -1);
    }
  }

  // Extension finds that extension of the base name.
  lemma ExtensionIsByParts(pf: Platform, p: string)
    ensures IsName(pf, BaseName(pf, p)) ==> Extension(pf, p) == ExtensionByParts(BaseName(pf, p))
    ensures !IsName(pf, BaseName(pf, p)) ==> Extension(pf, p) == ""
  {
    BaseNameShape(pf, p);
    hide BaseName, LastDot, LastSeparator, Parts, IsCommonDoubleExtension, IsSpecial;
    var base := BaseName(pf, p);
    if IsName(pf, base) {
      NameByParts(pf, base);
    } else {
      SeparatorsHaveNoDot(pf, base);
    }
  }

  lemma SeparatorsHaveNoDot(pf: Platform, s: string)
    requires AllSeparators(pf, s)
    ensures ExtensionSeparatorPosition(pf, s) == -1
  {
    hide LastDot;
    assert !IsSeparator(pf, EXTENSION_SEPARATOR);
    LastDotIs(s, -1);
  }

  // The last two parts, by the positions of the last two dots.
  lemma LastParts(s: string)
    ensures var k, parts := LastDot(s), Parts(s);
      if k == -1 then parts == [s]
      else
        var q, n := LastDot(s[..k]), |parts|;
        && n >= 2 && parts[n - 1] == s[k + 1..]
        && (if q == -1 then n == 2 else n >= 3 && parts[n - 2] == s[q + 1..k])
  {
    hide LastDot, Parts;
    LastPart(s);
    var k := LastDot(s);
    if k >= 0 {
      LastPart(s[..k]);
      var q := LastDot(s[..k]);
      if q >= 0 {
        assert s[..k][q + 1..] == s[q + 1..k];
      }
    }
  }

  lemma FromDot(s: string, k: nat, q: int)
    requires k < |s| && s[k] == EXTENSION_SEPARATOR && -1 <= q < k && (q >= 0 ==> s[q] == EXTENSION_SEPARATOR)
    ensures s[k..] == "." + s[k + 1..]
    ensures q >= 0 ==> s[q..] == "." + s[q + 1..k] + "." + s[k + 1..]
  {
  }

  lemma NameByParts(pf: Platform, name: string)
    requires IsName(pf, name)
    ensures var dot := ExtensionSeparatorPosition(pf, name);
      ExtensionByParts(name) == if dot == -1 then "" else name[dot..]
  {
    hide LastDot, LastSeparator, Parts, IsCommonDoubleExtension, IsSpecial, IsName;
    var k := LastDot(name);
    LastParts(name);
    if !IsSpecial(name) && k >= 0 {
      var q := LastDot(name[..k]);
      var twice := k > 0 && IsCommonDoubleExtension(name[k + 1..]) && q >= 0 && 1 < k - q <= 5;
      PrefixName(pf, name, k);
      assert ExtensionSeparatorPosition(pf, name) == if twice then q else k;
      assert twice <==> |Parts(name)| >= 3 && IsCommonDoubleExtension(name[k + 1..]) && 1 <= |Parts(name)[|Parts(name)| - 2]| <= 4;
      hide ExtensionSeparatorPosition;
      FromDot(name, k, q);
    }
  }

  lemma PrefixName(pf: Platform, name: string, k: nat)
    requires IsName(pf, name) && k <= |name|
    ensures LastSeparator(pf, name[..k]) == -1
  {
    hide LastSeparator, IsSeparator;
    LastSeparatorUnique(pf, name[..k], -1);
  }

  // ---------- Inserting in front of it ----------

  function InsertBeforeExtension(pf: Platform, p: string, suffix: string): string {
    var base := BaseName(pf, p);
    if suffix == "" then p
    else if base == "" || IsSpecial(base) then ""
    else RemoveExtension(pf, p) + suffix + Extension(pf, p)
  }

  // An empty suffix changes nothing; any other has no place in a path that ends in no name, "." or "..".
  lemma NoPlaceToInsert(pf: Platform, p: string, suffix: string)
    ensures InsertBeforeExtension(pf, p, "") == p
    ensures suffix != "" ==>
      (InsertBeforeExtension(pf, p, suffix) == "" <==> BaseName(pf, p) == "" || BaseName(pf, p) == "." || BaseName(pf, p) == "..")
    ensures p != "" && suffix != "" ==> InsertBeforeExtension(pf, Append(pf, p, ".."), suffix) == ""
  {
    hide BaseName, Append, RemoveExtension, Extension;
    if p != "" {
      assert FindDriveLetter(pf, "..") == -1 && IsName(pf, "..");
      BaseNameOfAppend(pf, p, "..");
    }
  }

  // Where the extension of a file name starts, or its end.
  function StemLength(pf: Platform, name: string): (n: nat)
    ensures n <= |name|
  {
    var dot := ExtensionSeparatorPosition(pf, name);
    if dot == -1 then |name| else dot
  }

  function InsertAt(s: string, x: string, n: nat): (r: string)
    requires n <= |s|
    ensures |r| == |s| + |x|
  {
    s[..n] + x + s[n..]
  }

  lemma CharAt(s: string, x: string, n: nat, i: nat)
    requires n <= |s| && i < |s| + |x|
    ensures InsertAt(s, x, n)[i] == if i < n then s[i] else if i < n + |x| then x[i - n] else s[i - |x|]
  {
  }

  // The file name with the suffix in it.
  function Inserted(pf: Platform, name: string, suffix: string): string {
    InsertAt(name, suffix, StemLength(pf, name))
  }

  // A name without extension gets one from a dot in the suffix; a common second extension gets a first
  // one where one to four characters now stand between it and the dot before, as in "a..gz".
  predicate GrowsExtension(pf: Platform, name: string, suffix: string) {
    var dot := ExtensionSeparatorPosition(pf, name);
    if dot == -1 then EXTENSION_SEPARATOR in suffix
    else
      var stem := name[..dot] + suffix;
      && dot == LastDot(name) && IsCommonDoubleExtension(name[dot + 1..])
      && LastDot(stem) >= 0 && 1 <= |stem| - 1 - LastDot(stem) <= 4
  }

  lemma LastDotIs(s: string, k: int)
    requires -1 <= k < |s| && (k >= 0 ==> s[k] == EXTENSION_SEPARATOR)
    requires forall i :: k < i < |s| ==> s[i] != EXTENSION_SEPARATOR
    ensures LastDot(s) == k
  {
    hide LastDot;
  }

  predicate Suffix(pf: Platform, suffix: string) {
    suffix != "" && NoSeparator(pf, suffix) && (pf.driveLetters ==> ':' !in suffix)
  }

  lemma NoLastSeparator(pf: Platform, s: string)
    requires NoSeparator(pf, s)
    ensures LastSeparator(pf, s) == -1
  {
    LastSeparatorUnique(pf, s, -1);
  }

  // Inserting at n moves the dots from n on.
  lemma DotsMove(s: string, suffix: string, n: nat)
    requires n <= |s| && LastDot(s) >= n
    ensures LastDot(InsertAt(s, suffix, n)) == LastDot(s) + |suffix|
  {
    hide LastDot, InsertAt;
    var t, moved := InsertAt(s, suffix, n), LastDot(s) + |suffix|;
    forall i | moved <= i < |t| ensures t[i] == s[i - |suffix|] {
      CharAt(s, suffix, n, i);
    }
    LastDotIs(t, moved);
  }

  // Where there is no dot, the suffix brings the last one.
  lemma DotsComeIn(s: string, suffix: string)
    requires LastDot(s) == -1
    ensures LastDot(InsertAt(s, suffix, |s|)) == -1 <==> EXTENSION_SEPARATOR !in suffix
  {
    hide LastDot, InsertAt;
    var t := InsertAt(s, suffix, |s|);
    forall i | 0 <= i < |t| ensures t[i] == if i < |s| then s[i] else suffix[i - |s|] {
      CharAt(s, suffix, |s|, i);
    }
    if EXTENSION_SEPARATOR in suffix {
      var j :| 0 <= j < |suffix| && suffix[j] == EXTENSION_SEPARATOR;
      assert t[|s| + j] == EXTENSION_SEPARATOR;
    } else {
      LastDotIs(t, -1);
    }
  }

  lemma NotSpecial(name: string, suffix: string, n: nat)
    requires n <= |name| && name != "" && suffix != "" && !IsSpecial(name)
    ensures !IsSpecial(InsertAt(name, suffix, n))
  {
    hide InsertAt;
    var t := InsertAt(name, suffix, n);
    if |name| == 1 {
      CharAt(name, suffix, n, if n == 0 then |suffix| else 0);
      assert name[0] != '.' ==> name[0] in t;
    }
  }

  // What lies before the dot k, and what after, when the suffix is inserted at or before it.
  lemma AroundDot(pf: Platform, name: string, suffix: string, n: nat, k: nat)
    requires n <= k < |name| && NoSeparator(pf, name) && NoSeparator(pf, suffix)
    ensures var t := InsertAt(name, suffix, n);
      t[..k + |suffix|] == InsertAt(name[..k], suffix, n) && t[k + |suffix| + 1..] == name[k + 1..]
    ensures NoSeparator(pf, InsertAt(name[..k], suffix, n)) && NoSeparator(pf, name[..k])
  {
    hide IsSeparator;
    var t := InsertAt(name, suffix, n);
    assert name[..k][..n] == name[..n] && name[n..][..k - n] == name[..k][n..];
    forall i | 0 <= i < k + |suffix| ensures !IsSeparator(pf, InsertAt(name[..k], suffix, n)[i]) {
      CharAt(name[..k], suffix, n, i);
    }
  }

  // The extension of a file name with the suffix in it starts at the same dot, except where it grows.
  lemma PositionMoves(pf: Platform, name: string, suffix: string)
    requires IsName(pf, name) && !IsSpecial(name) && Suffix(pf, suffix)
    ensures var dot, moved := ExtensionSeparatorPosition(pf, name), ExtensionSeparatorPosition(pf, Inserted(pf, name, suffix));
      (moved == if dot == -1 then -1 else dot + |suffix|) <==> !GrowsExtension(pf, name, suffix)
  {
    hide LastDot, LastSeparator, IsCommonDoubleExtension, InsertAt, NoSeparator, IsSpecial;
    var n, k := StemLength(pf, name), LastDot(name);
    NotSpecial(name, suffix, n);
    if k == -1 {
      DotsComeIn(name, suffix);
    } else if n < k {
      FirstMoves(pf, name, suffix, n, k);
    } else {
      SecondMoves(pf, name, suffix, k);
    }
  }

  // The position by the last two dots.
  lemma ByTwoDots(pf: Platform, s: string, k: nat)
    requires !IsSpecial(s) && LastDot(s) == k && LastSeparator(pf, s[..k]) == -1
    ensures var q := LastDot(s[..k]);
      var twice := IsCommonDoubleExtension(s[k + 1..]) && q >= 0 && 1 < k - q <= 5;
      ExtensionSeparatorPosition(pf, s) == if twice then q else k
  {
    hide LastDot, LastSeparator, IsCommonDoubleExtension, IsSpecial;
  }

  // With two parts in the extension, both of its dots move.
  lemma FirstMoves(pf: Platform, name: string, suffix: string, n: nat, k: nat)
    requires IsName(pf, name) && Suffix(pf, suffix) && n <= |name| && !IsSpecial(name) && !IsSpecial(InsertAt(name, suffix, n))
    requires n == ExtensionSeparatorPosition(pf, name) < k == LastDot(name)
    ensures ExtensionSeparatorPosition(pf, InsertAt(name, suffix, n)) == n + |suffix|
  {
    hide LastDot, LastSeparator, IsCommonDoubleExtension, InsertAt, NoSeparator, IsSpecial, ExtensionSeparatorPosition;
    var init, t := name[..k], InsertAt(name, suffix, n);
    AroundDot(pf, name, suffix, n, k);
    NoLastSeparator(pf, init);
    ByTwoDots(pf, name, k);
    DotsMove(name, suffix, n);
    DotsMove(init, suffix, n);
    NoLastSeparator(pf, t[..k + |suffix|]);
    ByTwoDots(pf, t, k + |suffix|);
  }

  // With one, its dot moves, and the one before it is that of the stem with the suffix.
  lemma SecondMoves(pf: Platform, name: string, suffix: string, k: nat)
    requires IsName(pf, name) && Suffix(pf, suffix) && k <= |name| && !IsSpecial(InsertAt(name, suffix, k))
    requires k == ExtensionSeparatorPosition(pf, name) == LastDot(name)
    ensures ExtensionSeparatorPosition(pf, InsertAt(name, suffix, k)) == k + |suffix| <==> !GrowsExtension(pf, name, suffix)
  {
    hide LastDot, LastSeparator, IsCommonDoubleExtension, InsertAt, NoSeparator, IsSpecial, ExtensionSeparatorPosition;
    var init, t := name[..k], InsertAt(name, suffix, k);
    AroundDot(pf, name, suffix, k, k);
    AtTheEnd(init, suffix);
    DotsMove(name, suffix, k);
    NoLastSeparator(pf, t[..k + |suffix|]);
    ByTwoDots(pf, t, k + |suffix|);
  }

  lemma AtTheEnd(s: string, suffix: string)
    ensures InsertAt(s, suffix, |s|) == s + suffix
  {
  }

  // Replacing the file name changes neither the drive letter nor the directory.
  lemma SameHead(pf: Platform, head: string, name: string, other: string)
    requires IsName(pf, name) && IsName(pf, other)
    requires var letter := FindDriveLetter(pf, head + name);
      && letter + 1 <= |head| && FindDriveLetter(pf, head + other) == letter
      && (|head| == letter + 1 || IsSeparator(pf, head[|head| - 1]))
    ensures Strip(pf, head + other) == head + other
    ensures DirName(pf, head + other) == DirName(pf, head + name)
    ensures BaseName(pf, head + other) == other
  {
    hide LastSeparator, TrimmedLength, AfterLastSeparator, HeadCut, FindDriveLetter;
    HeadAlone(pf, head, name);
    HeadAlone(pf, head, other);
    var letter := FindDriveLetter(pf, head + name);
    var rest, k := (head + other)[letter + 1..], |head| - (letter + 1);
    assert rest[k..] == other;
    NameAfterSeparator(pf, rest, k);
  }

  // The directory part of a path depends on what precedes the file name only.
  function HeadCut(pf: Platform, head: string, letter: int): string
    requires -1 <= letter < |head|
  {
    var last := if head != "" && IsSeparator(pf, head[|head| - 1]) then |head| - 1 else -1;
    if last == -1 then head[..letter + 1]
    else if last == letter + 1 then head[..letter + 2]
    else if last == letter + 2 && IsSeparator(pf, head[letter + 1]) then head[..letter + 3]
    else head[..last]
  }

  lemma HeadAlone(pf: Platform, head: string, name: string)
    requires IsName(pf, name)
    requires var letter := FindDriveLetter(pf, head + name);
      letter + 1 <= |head| && (|head| == letter + 1 || IsSeparator(pf, head[|head| - 1]))
    ensures Strip(pf, head + name) == head + name
    ensures Cut(pf, head + name) == HeadCut(pf, head, FindDriveLetter(pf, head + name))
  {
    hide LastSeparator, Strip, Cut, FindDriveLetter, IsSeparator, HeadCut;
    var s := head + name;
    assert s[|s| - 1] == name[|name| - 1];
    StripFixpoints(pf, s);
    assert forall i :: |head| <= i < |s| ==> s[i] == name[i - |head|];
    NoSeparatorInDrive(pf, s);
    LastSeparatorUnique(pf, s, if head != "" && IsSeparator(pf, head[|head| - 1]) then |head| - 1 else -1);
    CutOfHead(pf, head, name);
  }

  lemma NoSeparatorInDrive(pf: Platform, s: string)
    ensures forall i :: 0 <= i <= FindDriveLetter(pf, s) ==> !IsSeparator(pf, s[i])
  {
  }

  lemma CutOfHead(pf: Platform, head: string, name: string)
    requires var letter := FindDriveLetter(pf, head + name);
      letter + 1 <= |head| && (|head| == letter + 1 || IsSeparator(pf, head[|head| - 1]))
    requires LastSeparator(pf, head + name) == if head != "" && IsSeparator(pf, head[|head| - 1]) then |head| - 1 else -1
    ensures Cut(pf, head + name) == HeadCut(pf, head, FindDriveLetter(pf, head + name))
  {
    hide LastSeparator, FindDriveLetter;
    assert forall m: nat :: m <= |head| ==> (head + name)[..m] == head[..m];
  }

  // The result, as the file name with the suffix in it behind the same head.
  lemma InsertedPath(pf: Platform, p: string, suffix: string) returns (head: string)
    requires Strip(pf, p) == p && IsName(pf, BaseName(pf, p)) && !IsSpecial(BaseName(pf, p)) && Suffix(pf, suffix)
    ensures p == head + BaseName(pf, p)
    ensures InsertBeforeExtension(pf, p, suffix) == head + Inserted(pf, BaseName(pf, p), suffix)
    ensures var letter := FindDriveLetter(pf, p);
      letter + 1 <= |head| && (|head| == letter + 1 || IsSeparator(pf, head[|head| - 1]))
  {
    hide BaseName, Strip, ExtensionSeparatorPosition, FindDriveLetter, IsName, IsSpecial, Suffix, InsertAt;
    var base := BaseName(pf, p);
    var at := BaseNameSuffix(pf, p);
    head := p[..at];
    var dot := ExtensionSeparatorPosition(pf, base);
    if dot >= 0 {
      SameDot(pf, p, at);
    }
    Reassembled(p, at, suffix, if dot >= 0 then dot else |base|);
    NameAndSuffix(pf, base, suffix);
  }

  lemma NameAndSuffix(pf: Platform, base: string, suffix: string)
    ensures IsName(pf, base) ==> base != ""
    ensures Suffix(pf, suffix) ==> suffix != ""
  {
  }

  lemma Reassembled(p: string, at: nat, suffix: string, n: nat)
    requires at + n <= |p|
    ensures p[..at] + InsertAt(p[at..], suffix, n) == p[..at + n] + suffix + p[at..][n..]
    ensures p[..|p|] == p && p == p[..at] + p[at..]
    ensures at + n == |p| ==> p[at..][n..] == "" && p[..at + n] == p
  {
  }

  lemma SameLetter(pf: Platform, head: string, name: string, suffix: string, n: nat)
    requires name != "" && n <= |name| && Suffix(pf, suffix) && (n == 0 ==> name[0] == EXTENSION_SEPARATOR)
    requires FindDriveLetter(pf, head + name) + 1 <= |head|
    requires |head| == FindDriveLetter(pf, head + name) + 1 || IsSeparator(pf, head[|head| - 1])
    ensures FindDriveLetter(pf, head + InsertAt(name, suffix, n)) == FindDriveLetter(pf, head + name)
  {
    hide InsertAt;
    var t := InsertAt(name, suffix, n);
    CharAt(name, suffix, n, 0);
    if |t| > 1 {
      CharAt(name, suffix, n, 1);
    }
  }

  // The suffix goes into the file name in the same directory, and the extension stays what it was,
  // exactly unless it grows.
  lemma InsertBeforeExtensionKeeps(pf: Platform, p: string, suffix: string)
    requires Strip(pf, p) == p && IsName(pf, BaseName(pf, p)) && !IsSpecial(BaseName(pf, p)) && Suffix(pf, suffix)
    ensures var base, r := BaseName(pf, p), InsertBeforeExtension(pf, p, suffix);
      && DirName(pf, r) == DirName(pf, p)
      && BaseName(pf, r) == Inserted(pf, base, suffix)
      && (Extension(pf, r) == Extension(pf, p) <==> !GrowsExtension(pf, base, suffix))
  {
    hide BaseName, Strip, DirName, FindDriveLetter, GrowsExtension, ExtensionSeparatorPosition, StemLength, InsertAt;
    hide InsertBeforeExtension, IsSpecial, Suffix, IsName;
    var base := BaseName(pf, p);
    var head := InsertedPath(pf, p, suffix);
    var n, t := StemLength(pf, base), Inserted(pf, base, suffix);
    PositionMoves(pf, base, suffix);
    EmptyStem(pf, base);
    SameLetter(pf, head, base, suffix, n);
    InsertedName(pf, base, suffix, n);
    SameHead(pf, head, base, t);
    NameAndSuffix(pf, base, suffix);
    ExtensionOfInserted(pf, base, suffix);
  }

  lemma EmptyStem(pf: Platform, name: string)
    ensures IsName(pf, name) ==> name != "" && (StemLength(pf, name) == 0 ==> name[0] == EXTENSION_SEPARATOR)
  {
    hide LastDot, LastSeparator, IsCommonDoubleExtension;
  }

  // A path with trailing separators is treated like the stripped one exactly if it has an extension of
  // one part: without an extension the suffix lands behind the separators, and of an extension with two
  // parts the first is not found before them.
  lemma TrailingSeparators(pf: Platform, p: string, suffix: string)
    requires suffix != "" && Strip(pf, p) != p && IsName(pf, BaseName(pf, p)) && !IsSpecial(BaseName(pf, p))
    ensures InsertBeforeExtension(pf, p, suffix) == InsertBeforeExtension(pf, Strip(pf, p), suffix) <==>
            Extension(pf, p) != "" && EXTENSION_SEPARATOR !in Extension(pf, p)[1..]
  {
    hide BaseName, Strip, ExtensionSeparatorPosition, IsName, IsSpecial, InsertBeforeExtension, LastDot, Extension;
    var s, ext := Strip(pf, p), Extension(pf, p);
    if ext == "" {
      SuffixBehind(pf, p, suffix);
    } else {
      var at, dot, q := SuffixBefore(pf, p, suffix);
      Lengths(p[..q], p[..at + dot], suffix + ext);
    }
  }

  lemma SuffixBehind(pf: Platform, p: string, suffix: string)
    requires Strip(pf, p) != p && IsName(pf, BaseName(pf, p)) && !IsSpecial(BaseName(pf, p)) && suffix != ""
    requires Extension(pf, p) == ""
    ensures InsertBeforeExtension(pf, p, suffix) != InsertBeforeExtension(pf, Strip(pf, p), suffix)
  {
    hide BaseName, Strip, ExtensionSeparatorPosition, IsSpecial;
    SeparatorsBehind(pf, p);
    NamesOfStrip(pf, p);
    assert |p + suffix + ""| != |Strip(pf, p) + suffix + ""|;
  }

  // Where the suffix goes, in the path (q) and in the stripped path (at + dot).
  lemma SuffixBefore(pf: Platform, p: string, suffix: string) returns (at: nat, dot: nat, q: nat)
    requires Strip(pf, p) != p && IsName(pf, BaseName(pf, p)) && !IsSpecial(BaseName(pf, p)) && suffix != ""
    requires Extension(pf, p) != ""
    ensures at + dot <= |p| && q <= |p|
    ensures InsertBeforeExtension(pf, p, suffix) == p[..q] + (suffix + Extension(pf, p))
    ensures InsertBeforeExtension(pf, Strip(pf, p), suffix) == p[..at + dot] + (suffix + Extension(pf, p))
    ensures q == at + dot <==> EXTENSION_SEPARATOR !in Extension(pf, p)[1..]
  {
    hide BaseName, Strip, ExtensionSeparatorPosition, LastDot, IsSpecial, IsName, InsertBeforeExtension, Extension;
    var s := Strip(pf, p);
    SeparatorsBehind(pf, p);
    NamesOfStrip(pf, p);
    at, dot := DotsOfStripped(pf, p);
    SameExtension(pf, p);
    q := ExtensionSeparatorPosition(pf, p);
    InsertsAt(pf, p, suffix);
    InsertsAt(pf, s, suffix);
    assert p[..at + dot] == s[..at + dot];
  }

  lemma SameExtension(pf: Platform, p: string)
    ensures Extension(pf, Strip(pf, p)) == Extension(pf, p)
  {
    hide BaseName, Strip, ExtensionSeparatorPosition;
    NamesOfStrip(pf, p);
  }

  lemma InsertsAt(pf: Platform, p: string, suffix: string)
    requires BaseName(pf, p) != "" && !IsSpecial(BaseName(pf, p)) && suffix != ""
    requires Extension(pf, p) != "" && ExtensionSeparatorPosition(pf, p) >= 0
    ensures InsertBeforeExtension(pf, p, suffix) == p[..ExtensionSeparatorPosition(pf, p)] + (suffix + Extension(pf, p))
  {
    hide BaseName, ExtensionSeparatorPosition, IsSpecial, Extension;
    var stem, ext := p[..ExtensionSeparatorPosition(pf, p)], Extension(pf, p);
    assert stem + suffix + ext == stem + (suffix + ext);
  }

  // Where the two paths have the dot, of which the extension of the base name is made.
  lemma DotsOfStripped(pf: Platform, p: string) returns (at: nat, dot: nat)
    requires Strip(pf, p) != p && IsName(pf, BaseName(pf, p)) && !IsSpecial(BaseName(pf, p)) && Extension(pf, p) != ""
    ensures var s, q := Strip(pf, p), ExtensionSeparatorPosition(pf, p);
      && BaseName(pf, p) != "" && s < p && at + dot <= |s|
      && ExtensionSeparatorPosition(pf, s) == at + dot && q >= 0
      && (q == at + dot <==> EXTENSION_SEPARATOR !in Extension(pf, p)[1..])
  {
    hide BaseName, Strip, ExtensionSeparatorPosition, LastDot, IsSpecial, IsName;
    var s, base := Strip(pf, p), BaseName(pf, p);
    SeparatorsBehind(pf, p);
    EmptyStem(pf, base);
    at := BaseNameSuffix(pf, p);
    dot := ExtensionSeparatorPosition(pf, base);
    OneDot(pf, base);
    StripIdempotent(pf, p);
    SameDot(pf, s, at);
    LastDotOfSuffix(s, at);
    PositionBehind(pf, s, p);
  }

  lemma Lengths(a: string, b: string, c: string)
    ensures a + c == b + c ==> |a| == |b|
  {
    assert |a + c| == |a| + |c|;
  }

  // What stripping takes off is separators.
  lemma SeparatorsBehind(pf: Platform, p: string)
    requires Strip(pf, p) != p
    ensures var s := Strip(pf, p);
      s < p && AllSeparators(pf, p[|s|..])
  {
    hide LastSeparator, TrimmedLength;
  }

  // With separators behind the name only the last dot is found.
  lemma PositionBehind(pf: Platform, s: string, p: string)
    requires s < p && AllSeparators(pf, p[|s|..]) && LastDot(s) >= 0
    ensures ExtensionSeparatorPosition(pf, p) == LastDot(p) == LastDot(s)
  {
    hide LastDot, LastSeparator, IsSeparator, IsCommonDoubleExtension, IsSpecial, ExtensionSeparatorPosition;
    var k := LastDot(s);
    LastDotBehind(pf, s, p);
    assert p[|p| - 1] == p[|s|..][|p| - |s| - 1];
    NotCommon(pf, p[k + 1..]);
    NotSpecialBehind(pf, p);
    OnePart(pf, p);
  }

  lemma LastDotBehind(pf: Platform, s: string, p: string)
    requires s < p && AllSeparators(pf, p[|s|..])
    ensures LastDot(p) == LastDot(s)
  {
    hide LastDot, IsSeparator;
    DotIsNoSeparator(pf);
    forall i | LastDot(s) < i < |p| ensures p[i] != EXTENSION_SEPARATOR {
      assert if i < |s| then p[i] == s[i] else p[i] == p[|s|..][i - |s|];
    }
    LastDotIs(p, LastDot(s));
  }

  lemma OnePart(pf: Platform, s: string)
    requires !IsSpecial(s) && LastDot(s) >= 0 && !IsCommonDoubleExtension(s[LastDot(s) + 1..])
    ensures ExtensionSeparatorPosition(pf, s) == LastDot(s)
  {
    hide LastDot, LastSeparator, IsCommonDoubleExtension, IsSpecial;
  }

  lemma DotIsNoSeparator(pf: Platform)
    ensures !IsSeparator(pf, EXTENSION_SEPARATOR)
  {
  }

  lemma NotSpecialBehind(pf: Platform, p: string)
    requires p != "" && IsSeparator(pf, p[|p| - 1])
    ensures !IsSpecial(p)
  {
  }

  lemma NotCommon(pf: Platform, ext: string)
    requires ext != "" && IsSeparator(pf, ext[|ext| - 1])
    ensures !IsCommonDoubleExtension(ext)
  {
    assert Lower(ext)[|ext| - 1] == ext[|ext| - 1];
  }

  // The extension has one part exactly if it starts at the last dot.
  lemma OneDot(pf: Platform, name: string)
    requires ExtensionSeparatorPosition(pf, name) >= 0
    ensures var dot := ExtensionSeparatorPosition(pf, name);
      LastDot(name) >= dot && (EXTENSION_SEPARATOR !in name[dot..][1..] <==> LastDot(name) == dot)
  {
    hide LastDot, LastSeparator, IsCommonDoubleExtension;
    var dot, k := ExtensionSeparatorPosition(pf, name), LastDot(name);
    if dot < k {
      assert name[dot..][1..][k - dot - 1] == EXTENSION_SEPARATOR;
    }
  }

  lemma InsertedName(pf: Platform, name: string, suffix: string, n: nat)
    requires IsName(pf, name) && Suffix(pf, suffix) && n <= |name|
    ensures IsName(pf, InsertAt(name, suffix, n))
  {
    hide InsertAt, IsSeparator;
    forall i | 0 <= i < |name| + |suffix| ensures !IsSeparator(pf, InsertAt(name, suffix, n)[i]) {
      CharAt(name, suffix, n, i);
    }
  }

  // Extensions of the two file names are equal exactly when they start at the same dot.
  lemma ExtensionOfInserted(pf: Platform, name: string, suffix: string)
    requires suffix != ""
    ensures var t := Inserted(pf, name, suffix);
      var dot, moved := ExtensionSeparatorPosition(pf, name), ExtensionSeparatorPosition(pf, t);
      (moved == if dot == -1 then -1 else dot + |suffix|) <==>
      ((if moved == -1 then "" else t[moved..]) == (if dot == -1 then "" else name[dot..]))
  {
    hide ExtensionSeparatorPosition;
  }

  // An input whose extension grows.
  lemma ExtensionGrows()
    ensures Extension(POSIX, "a..gz") == ".gz" && InsertBeforeExtension(POSIX, "a..gz", "x") == "a.x.gz"
    ensures Extension(POSIX, "a.x.gz") == ".x.gz"
  {
    GrowingDots();
    NamesAlone();
    hide ExtensionSeparatorPosition, BaseName, Strip;
    var p, r := "a..gz", "a.x.gz";
    assert p[2..] == ".gz" && p[..2] == "a." && r[1..] == ".x.gz";
  }

  lemma NamesAlone()
    ensures BaseName(POSIX, "a..gz") == "a..gz" && BaseName(POSIX, "a.x.gz") == "a.x.gz"
  {
    hide LastSeparator, TrimmedLength, AfterLastSeparator;
    var p, r := "a..gz", "a.x.gz";
    assert p[4] == 'z' && r[5] == 'z' && p[0..] == p && r[0..] == r;
    StripFixpoints(POSIX, p);
    StripFixpoints(POSIX, r);
    NameAfterSeparator(POSIX, p, 0);
    NameAfterSeparator(POSIX, r, 0);
  }

  lemma GrowingDots()
    ensures ExtensionSeparatorPosition(POSIX, "a..gz") == 2
    ensures ExtensionSeparatorPosition(POSIX, "a.x.gz") == 1
  {
    hide LastDot, LastSeparator;
    var p, r := "a..gz", "a.x.gz";
    LastDotIs(p, 2);
    LastDotIs(r, 3);
    assert p[3..] == "gz" && r[4..] == "gz" && Lower("gz") == "gz";
    assert p[..2] == "a." && r[..3] == "a.x";
    LastDotIs("a.", 1);
    LastDotIs("a.x", 1);
    LastSeparatorUnique(POSIX, "a.", -1);
    LastSeparatorUnique(POSIX, "a.x", -1);
  }
}
