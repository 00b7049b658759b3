/**
  Virtual AppleDouble paths (resource.c): D/.AppleDouble/f stands for the resource
  fork of D/f, and the suffixes .finderinfo and .comment for its other metadata.
 */
module AppleDouble {
  import opened CStrings
  import opened Paths

  const APPLEDOUBLE := ".AppleDouble"
  const FINDERINFO := ".finderinfo"
  const COMMENT := ".comment"
  const SERVERICON := "/.servericon"

  datatype Meta = NoMeta | Resource | AppleDoubleDir | FinderInfo | Comment | ServerIcon

  /** What extra_translate returns, with the path it stores ("" stands for NULL). */
  datatype Translation = Translation(meta: Meta, newpath: string)

  predicate EndsWith(s: string, suffix: string) {
    |suffix| <= |s| && s[|s| - |suffix|..] == suffix
  }

  function LastComponent(path: string): (r: string) {
    path[LastSlash(path) + 1..]
  }

  /** After ".AppleDouble" inside a longer last component the C code would read past the terminator. */
  predicate Readable(path: string) {
    var p := Strstr(path, APPLEDOUBLE, 0);
    p + |APPLEDOUBLE| == |path| ==> LastComponent(path) == APPLEDOUBLE
  }

  /** Cuts the suffix that tells what kind of metadata is meant. */
  function Tag(s: string): (t: Translation) {
    if |s| > |FINDERINFO| && EndsWith(s, FINDERINFO) then Translation(FinderInfo, s[..|s| - |FINDERINFO|])
    else if |s| > |COMMENT| && EndsWith(s, COMMENT) then Translation(Comment, s[..|s| - |COMMENT|])
    else Translation(Resource, s)
  }

  function Translate(showAppleDouble: bool, path: string): (t: Translation)
    requires Readable(path)
  {
    var p := Strstr(path, APPLEDOUBLE, 0);
    if !showAppleDouble then Translation(NoMeta, "")
    else if path == SERVERICON then Translation(ServerIcon, "")
    else if |path| < |APPLEDOUBLE| + 1 || LastSlash(path) < 0 then Translation(NoMeta, "")
    else if LastComponent(path) == APPLEDOUBLE then
      Translation(AppleDoubleDir, if |path| == |APPLEDOUBLE| + 1 then "/" else path[..|path| - (|APPLEDOUBLE| + 1)])
    else if p == |path| then Translation(NoMeta, "")
    else
      assert p + |APPLEDOUBLE| < |path|;
      Tag(path[..p] + path[p + |APPLEDOUBLE| + 1..])
  }

  /** The end of extra_translate: truncates newpath at the suffix that tells the kind of metadata. */
  method TagPath(path: string) returns (meta: Meta, newpath: string)
    ensures Translation(meta, newpath) == Tag(path)
  {
    newpath := path;
    if |newpath| > |FINDERINFO| {
      var p := |newpath| - |FINDERINFO|;
      if newpath[p..] == FINDERINFO {
        newpath := newpath[..p];
        return FinderInfo, newpath;
      }
    }
    if |newpath| > |COMMENT| {
      var p := |newpath| - |COMMENT|;
      if newpath[p..] == COMMENT {
        newpath := newpath[..p];
        return Comment, newpath;
      }
    }
    return Resource, newpath;
  }

  /** extra_translate. */
  method ExtraTranslate(showAppleDouble: bool, path: string) returns (meta: Meta, newpath: string)
    requires Readable(path)
    ensures Translation(meta, newpath) == Translate(showAppleDouble, path)
  {
    newpath := "";
    if !showAppleDouble {
      return NoMeta, newpath;
    }
    if path == SERVERICON {
      return ServerIcon, newpath;
    }
    if |path| < |APPLEDOUBLE| + 1 {
      return NoMeta, newpath;
    }
    var slash := LastSlash(path);
    if slash < 0 {
      return NoMeta, newpath;
    }
    if path[slash + 1..] == APPLEDOUBLE {
      if |path| == |APPLEDOUBLE| + 1 {
        newpath := "/";
      } else {
        newpath := path[..|path| - (|APPLEDOUBLE| + 1)];
      }
      return AppleDoubleDir, newpath;
    }
    var p := Strstr(path, APPLEDOUBLE, 0);
    if p < |path| {
      newpath := path[..p];
      p := p + |APPLEDOUBLE|;
      newpath := newpath + path[p + 1..];
      meta, newpath := TagPath(newpath);
      return;
    }
    return NoMeta, newpath;
  }

  // ----- names map back -----

  /** The directory part comes first: no earlier occurrence can straddle the slash. */
  lemma FirstOccurrence(dir: string, rest: string)
    requires !Occurs(dir, APPLEDOUBLE)
    ensures Strstr(dir + "/" + APPLEDOUBLE + rest, APPLEDOUBLE, 0) == |dir| + 1
  {
    var path := dir + "/" + APPLEDOUBLE + rest;
    assert OccursAt(path, APPLEDOUBLE, |dir| + 1);
    forall i: nat | i <= |dir| ensures !OccursAt(path, APPLEDOUBLE, i) {
      if i + |APPLEDOUBLE| <= |dir| {
        assert path[i..i + |APPLEDOUBLE|] == dir[i..i + |APPLEDOUBLE|];
        assert !OccursAt(dir, APPLEDOUBLE, i);
      } else {
        assert path[i..i + |APPLEDOUBLE|][|dir| - i] == path[|dir|] == '/';
        assert APPLEDOUBLE[|dir| - i] != '/';
      }
    }
  }

  lemma LastComponentIs(dir: string, name: string)
    requires '/' !in name
    ensures LastSlash(dir + "/" + name) == |dir| && LastComponent(dir + "/" + name) == name
  {
    JoinSplits(dir + "/" + name, dir, name);
  }

  /** The path shown for a name inside the virtual directory. */
  function Shown(dir: string, name: string): (path: string) {
    dir + "/" + APPLEDOUBLE + "/" + name
  }

  /** Anything in the virtual directory but its own name goes to Tag, with ".AppleDouble/" cut out. */
  lemma ShownTranslates(dir: string, name: string)
    requires !Occurs(dir, APPLEDOUBLE) && '/' !in name
    ensures Readable(Shown(dir, name))
    ensures name != APPLEDOUBLE ==> Translate(true, Shown(dir, name)) == Tag(dir + "/" + name)
    ensures name == APPLEDOUBLE ==> Translate(true, Shown(dir, name)) == Translation(AppleDoubleDir, dir + "/" + APPLEDOUBLE)
  {
    var path := Shown(dir, name);
    assert path == dir + "/" + APPLEDOUBLE + ("/" + name);
    FirstOccurrence(dir, "/" + name);
    JoinSplits(path, dir + "/" + APPLEDOUBLE, name);
    ShownCut(path, dir, name);
    assert |path| > |SERVERICON|;
  }

  lemma ShownCut(path: string, dir: string, name: string)
    requires path == Shown(dir, name)
    ensures path[..|dir| + 1] + path[|dir| + 1 + |APPLEDOUBLE| + 1..] == dir + "/" + name
    ensures name == APPLEDOUBLE ==> path[..|path| - (|APPLEDOUBLE| + 1)] == dir + "/" + APPLEDOUBLE
  {
    assert path[|dir| + 1 + |APPLEDOUBLE| + 1..] == name;
    assert path[..|dir| + 1] == dir + "/";
  }

  lemma TagSuffix(s: string)
    requires s != ""
    ensures Tag(s + FINDERINFO) == Translation(FinderInfo, s)
    ensures Tag(s + COMMENT) == Translation(Comment, s)
  {
    var f, c := s + FINDERINFO, s + COMMENT;
    assert f[|s|..] == FINDERINFO && f[..|s|] == s;
    assert c[|s|..] == COMMENT && c[..|s|] == s;
    if |c| > |FINDERINFO| {
      assert c[|c| - 1] == 't';
      assert c[|c| - |FINDERINFO|..][|FINDERINFO| - 1] == 't' && FINDERINFO[|FINDERINFO| - 1] == 'o';
    }
  }

  lemma SuffixedTranslates(dir: string, f: string, suffix: string)
    requires !Occurs(dir, APPLEDOUBLE) && '/' !in f
    requires '/' !in suffix && suffix != "" && suffix[|suffix| - 1] != 'e'
    ensures Readable(Shown(dir, f + suffix))
    ensures Translate(true, Shown(dir, f + suffix)) == Tag(dir + "/" + f + suffix)
  {
    var name := f + suffix;
    assert name[|name| - 1] == suffix[|suffix| - 1];
    assert APPLEDOUBLE[|APPLEDOUBLE| - 1] == 'e';
    ShownTranslates(dir, name);
    assert dir + "/" + name == dir + "/" + f + suffix;
  }

  /** The names add_fp makes up for file f translate back to f, with the right kind. */
  lemma MetadataNamesMapBack(dir: string, f: string)
    requires !Occurs(dir, APPLEDOUBLE) && '/' !in f
    ensures Readable(Shown(dir, f + FINDERINFO)) && Readable(Shown(dir, f + COMMENT))
    ensures Translate(true, Shown(dir, f + FINDERINFO)) == Translation(FinderInfo, dir + "/" + f)
    ensures Translate(true, Shown(dir, f + COMMENT)) == Translation(Comment, dir + "/" + f)
  {
    SuffixedTranslates(dir, f, FINDERINFO);
    SuffixedTranslates(dir, f, COMMENT);
    TagSuffix(dir + "/" + f);
  }

  lemma SuffixOfName(dir: string, name: string, suffix: string)
    requires '/' !in suffix
    ensures EndsWith(dir + "/" + name, suffix) <==> EndsWith(name, suffix)
  {
    var s := dir + "/" + name;
    if |suffix| <= |name| {
      assert s[|s| - |suffix|..] == name[|name| - |suffix|..];
    } else if |suffix| <= |s| {
      var k := |suffix| - |name| - 1;
      assert s[|s| - |suffix|..][k] == s[|dir|] == '/';
      assert suffix[k] != '/';
    }
  }

  lemma TagOfName(dir: string, f: string)
    ensures Tag(dir + "/" + f) == Translation(Resource, dir + "/" + f) <==> !EndsWith(f, FINDERINFO) && !EndsWith(f, COMMENT)
  {
    assert '/' !in FINDERINFO && '/' !in COMMENT;
    SuffixOfName(dir, f, FINDERINFO);
    SuffixOfName(dir, f, COMMENT);
  }

  /**
    A plain name stands for the resource fork of the file of that name if and
    only if it is neither ".AppleDouble" nor ends in one of the two suffixes.
   */
  lemma ResourceNameIff(dir: string, f: string)
    requires !Occurs(dir, APPLEDOUBLE) && '/' !in f
    ensures Readable(Shown(dir, f))
    ensures Translate(true, Shown(dir, f)) == Translation(Resource, dir + "/" + f)
            <==> f != APPLEDOUBLE && !EndsWith(f, FINDERINFO) && !EndsWith(f, COMMENT)
  {
    ShownTranslates(dir, f);
    TagOfName(dir, f);
  }

  /** ".AppleDouble" holds no slash, so a path with both is longer. */
  lemma SlashOutside(path: string)
    requires Occurs(path, APPLEDOUBLE) && LastSlash(path) >= 0
    ensures |path| > |APPLEDOUBLE|
  {
    var p: nat :| OccursAt(path, APPLEDOUBLE, p);
    var i := LastSlash(path);
    assert p <= i < p + |APPLEDOUBLE| ==> path[p..p + |APPLEDOUBLE|][i - p] == '/';
  }

  lemma LastComponentOccurs(path: string)
    requires LastComponent(path) == APPLEDOUBLE
    ensures Occurs(path, APPLEDOUBLE)
  {
    assert OccursAt(path, APPLEDOUBLE, LastSlash(path) + 1);
  }

  /** The server icon is one path. */
  lemma IconIff(showAppleDouble: bool, path: string)
    requires Readable(path)
    ensures Translate(showAppleDouble, path).meta == ServerIcon <==> showAppleDouble && path == SERVERICON
  {
  }

  lemma TagKind(s: string)
    ensures Tag(s).meta in {FinderInfo, Comment, Resource}
  {
  }

  lemma Untranslated(path: string)
    requires Readable(path) && path != SERVERICON && !Occurs(path, APPLEDOUBLE)
    ensures Translate(true, path).meta == NoMeta
  {
    StrstrIff(path, APPLEDOUBLE);
    if LastComponent(path) == APPLEDOUBLE {
      LastComponentOccurs(path);
    }
  }

  lemma Translated(path: string)
    requires Readable(path) && path != SERVERICON && Occurs(path, APPLEDOUBLE) && LastSlash(path) >= 0
    ensures Translate(true, path).meta != NoMeta
  {
    StrstrIff(path, APPLEDOUBLE);
    SlashOutside(path);
    if LastComponent(path) != APPLEDOUBLE {
      var p := Strstr(path, APPLEDOUBLE, 0);
      TagKind(path[..p] + path[p + |APPLEDOUBLE| + 1..]);
    }
  }

  /**
    Which paths are translated at all: the server icon, and a path that has a slash and
    ".AppleDouble" in it, if virtual directories are shown. Every other path is left alone.
   */
  lemma TranslatedIff(showAppleDouble: bool, path: string)
    requires Readable(path)
    ensures Translate(showAppleDouble, path).meta != NoMeta
            <==> showAppleDouble && (path == SERVERICON || (Occurs(path, APPLEDOUBLE) && LastSlash(path) >= 0))
  {
    if showAppleDouble && path != SERVERICON {
      if !Occurs(path, APPLEDOUBLE) {
        Untranslated(path);
      } else if LastSlash(path) >= 0 {
        Translated(path);
      }
    }
  }

  /** The virtual directory itself stands for the directory it is in. */
  lemma VirtualDirectoryMapsBack(dir: string)
    requires !Occurs(dir, APPLEDOUBLE)
    ensures Readable(dir + "/" + APPLEDOUBLE)
    ensures Translate(true, dir + "/" + APPLEDOUBLE) == Translation(AppleDoubleDir, if dir == "" then "/" else dir)
  {
    var path := dir + "/" + APPLEDOUBLE;
    assert path == dir + "/" + APPLEDOUBLE + "";
    assert '/' !in APPLEDOUBLE;
    LastComponentIs(dir, APPLEDOUBLE);
    assert path[..|path| - (|APPLEDOUBLE| + 1)] == dir;
    assert |path| > |SERVERICON|;
  }
}
