/** The clean-up of file names from debug information: one separator, no `.` or `..` segments, one drive. */
module SanePath {
  datatype PathType = PATH_RAW | PATH_TO_WINDOWS | PATH_TO_UNIX

  predicate IsSeparator(c: char) { c == '/' || c == '\\' }

  predicate IsAlpha(c: char) { 'a' <= c <= 'z' || 'A' <= c <= 'Z' }

  predicate EndsWith(s: string, c: char) { s != [] && s[|s| - 1] == c }

  /** The rest of the source has a separator at position k. */
  predicate SeparatorAt(rest: string, k: nat) { k < |rest| && IsSeparator(rest[k]) }

  predicate DotAt(rest: string, k: nat) { k < |rest| && rest[k] == '.' }

  // ----- the clean-up as a function

  /** The output up to the last separator. */
  function Back(out: string, sep: char): (kept: string)
    ensures kept <= out && (kept == [] || EndsWith(kept, sep))
    ensures forall i :: |kept| <= i < |out| ==> out[i] != sep
  {
    if out == [] || EndsWith(out, sep) then out else Back(out[..|out| - 1], sep)
  }

  /** The output after the next step, and how many characters of the source it takes. */
  function Step(sep: char, out: string, rest: string): (string, nat)
    requires rest != []
  {
    if rest[0] == ':' then
      (if out != [] && IsAlpha(out[|out| - 1]) then [out[|out| - 1], ':'] else out + [':'], 1)
    else if IsSeparator(rest[0]) then
      (if EndsWith(out, sep) then out else out + [sep], 1)
    else if rest[0] == '.' && EndsWith(out, sep) && SeparatorAt(rest, 1) then (out, 2)
    else if rest[0] == '.' && EndsWith(out, sep) && DotAt(rest, 1) && SeparatorAt(rest, 2) then
      (Back(out[..|out| - 1], sep), 3)
    else if rest[0] == '.' && out == [] && SeparatorAt(rest, 1) then (out, 2)
    else (out + [rest[0]], 1)
  }

  function Clean(sep: char, out: string, rest: string): string
    decreases |rest|
  {
    if rest == [] then out
    else var (out', k) := Step(sep, out, rest); Clean(sep, out', rest[k..])
  }

  // ----- the program

  /** sanePath, from one buffer to another; the string is given without its terminator. */
  method Sanitize(pt: PathType, src: string, dst: array<char>) returns (w: nat)
    requires '\0' !in src && dst.Length > |src|
    modifies dst
    ensures w <= |src| && dst[w] == '\0'
    ensures dst[..w] == if pt.PATH_RAW? then src else Clean(if pt.PATH_TO_WINDOWS? then '\\' else '/', [], src)
  {
    hide Clean, Step, Back;
    if pt == PATH_RAW {
      w := 0;
      while w < |src|
        invariant w <= |src| && dst[..w] == src[..w]
      {
        dst[w] := src[w];
        w := w + 1;
      }
      dst[w] := '\0';
      return;
    }
    var sep := if pt == PATH_TO_WINDOWS then '\\' else '/';
    var r := 0;
    w := 0;
    assert src[0..] == src;
    while r < |src|
      invariant w <= r <= |src|
      invariant Clean(sep, dst[..w], src[r..]) == Clean(sep, [], src)
      decreases |src| - r
    {
      CleanStep(sep, dst[..w], src[r..]);
      ghost var out, k := Step(sep, dst[..w], src[r..]).0, Step(sep, dst[..w], src[r..]).1;
      ghost var start := r;
      StepSize(sep, dst[..w], src[r..]);
      w, r := OneStep(sep, src, r, dst, w);
      assert src[start..][k..] == src[r..];
    }
    CleanDone(sep, dst[..w]);
    assert src[r..] == [];
    dst[w] := '\0';
    assert dst[..w] == Clean(sep, [], src);
  }

  /** One turn of the loop: the write index does not pass the read index. */
  method OneStep(sep: char, src: string, r: nat, dst: array<char>, w: nat) returns (w': nat, r': nat)
    requires w <= r < |src| < dst.Length
    modifies dst
    ensures w' <= r' <= |src|
    ensures r' == r + Step(sep, old(dst[..w]), src[r..]).1
    ensures dst[..w'] == Step(sep, old(dst[..w]), src[r..]).0
  {
    hide Back;
    ghost var out, rest := dst[..w], src[r..];
    assert rest[0] == src[r];
    w', r' := w, r + 1;
    if src[r] == ':' {
      if w > 0 && IsAlpha(dst[w - 1]) {
        var drive := dst[w - 1];
        dst[0] := drive;
        w' := 1;
      }
      dst[w'] := src[r];
      w' := w' + 1;
    } else if IsSeparator(src[r]) {
      if !(w > 0 && dst[w - 1] == sep) {
        dst[w] := sep;
        w' := w + 1;
      }
    } else if src[r] == '.' && w > 0 && dst[w - 1] == sep && r + 1 < |src| && IsSeparator(src[r + 1]) {
      r' := r + 2;
    } else if src[r] == '.' && w > 0 && dst[w - 1] == sep && r + 2 < |src|
              && src[r + 1] == '.' && IsSeparator(src[r + 2]) {
      w' := ScanBack(sep, dst, w - 1);
      assert out[..|out| - 1] == dst[..w - 1];
      r' := r + 3;
    } else if src[r] == '.' && w == 0 && r + 1 < |src| && IsSeparator(src[r + 1]) {
      r' := r + 2;
    } else {
      dst[w] := src[r];
      w' := w + 1;
    }
  }

  method ScanBack(sep: char, dst: array<char>, start: nat) returns (w: nat)
    requires start <= dst.Length
    ensures w <= start && dst[..w] == Back(dst[..start], sep)
  {
    w := start;
    while w > 0 && dst[w - 1] != sep
      invariant w <= start
      invariant Back(dst[..w], sep) == Back(dst[..start], sep)
    {
      assert dst[..w][..|dst[..w]| - 1] == dst[..w - 1];
      w := w - 1;
    }
  }

  lemma CleanStep(sep: char, out: string, rest: string)
    requires rest != []
    ensures Step(sep, out, rest).1 <= |rest|
    ensures Clean(sep, out, rest) == Clean(sep, Step(sep, out, rest).0, rest[Step(sep, out, rest).1..])
  {
  }

  lemma StepSize(sep: char, out: string, rest: string)
    requires rest != []
    ensures 1 <= Step(sep, out, rest).1 <= |rest|
  {
  }

  lemma CleanDone(sep: char, out: string)
    ensures Clean(sep, out, []) == out
  {
  }

  // ----- normal form

  /** No pattern that the clean-up removes ends at position i. */
  predicate GoodAt(sep: char, s: string, i: nat)
    requires i < |s|
  {
    && (IsSeparator(s[i]) ==>
          && s[i] == sep
          && !(i >= 1 && s[i - 1] == sep)
          && !(i >= 2 && s[i - 1] == '.' && s[i - 2] == sep)
          && !(i >= 3 && s[i - 1] == '.' && s[i - 2] == '.' && s[i - 3] == sep)
          && !(i == 1 && s[0] == '.'))
    && (s[i] == ':' && i > 1 ==> !IsAlpha(s[i - 1]))
  }

  /**
   Only this separator, never doubled, with no `.` or `..` segment between two, not beginning with a `.`
   segment, and a drive letter only at the beginning.
   */
  predicate Normal(sep: char, s: string) { forall i :: 0 <= i < |s| ==> GoodAt(sep, s, i) }

  lemma NormalPrefix(sep: char, s: string, t: string)
    requires Normal(sep, t) && s <= t
    ensures Normal(sep, s)
  {
    forall i | 0 <= i < |s|
      ensures GoodAt(sep, s, i)
    {
      assert GoodAt(sep, t, i);
    }
  }

  lemma NormalSnoc(sep: char, s: string, c: char)
    requires Normal(sep, s) && GoodAt(sep, s + [c], |s|)
    ensures Normal(sep, s + [c])
  {
    forall i | 0 <= i < |s|
      ensures GoodAt(sep, s + [c], i)
    {
      assert GoodAt(sep, s, i);
    }
  }

  predicate EndsWithDot(sep: char, out: string) { |out| >= 2 && out[|out| - 1] == '.' && out[|out| - 2] == sep }

  predicate EndsWithDots(sep: char, out: string)
  {
    |out| >= 3 && out[|out| - 1] == '.' && out[|out| - 2] == '.' && out[|out| - 3] == sep
  }

  /** The output is normal, and a dot segment it ends with does not end here. */
  predicate Ready(sep: char, out: string, rest: string)
  {
    && Normal(sep, out)
    && (EndsWithDot(sep, out) || out == "." || EndsWithDots(sep, out) ==> !SeparatorAt(rest, 0))
    && (EndsWithDot(sep, out) && DotAt(rest, 0) ==> !SeparatorAt(rest, 1))
  }

  lemma StepReady(sep: char, out: string, rest: string)
    requires IsSeparator(sep) && rest != [] && Ready(sep, out, rest)
    ensures var (out', k) := Step(sep, out, rest); k <= |rest| && Ready(sep, out', rest[k..])
  {
    hide Normal;
    var (out', k) := Step(sep, out, rest);
    if out' == out + [rest[0]] || out' == out + [sep] {
      NormalSnoc(sep, out, out'[|out|]);
    } else if out' <= out {
      NormalPrefix(sep, out', out);
    } else {
      DriveNormal(sep, out');
    }
  }

  lemma DriveNormal(sep: char, out: string)
    requires |out| == 2 && IsAlpha(out[0]) && out[1] == ':'
    ensures Normal(sep, out)
  {
  }

  /** Whatever the source, the output is normal. */
  lemma {:induction false} CleanIsNormal(sep: char, out: string, rest: string)
    requires IsSeparator(sep) && Ready(sep, out, rest)
    ensures Normal(sep, Clean(sep, out, rest))
    decreases |rest|
  {
    hide Ready, Step, Normal;
    if rest == [] {
      assert Normal(sep, out) by { ReadyIsNormal(sep, out, rest); }
    } else {
      StepReady(sep, out, rest);
      StepSize(sep, out, rest);
      var (out', k) := Step(sep, out, rest);
      CleanIsNormal(sep, out', rest[k..]);
    }
  }

  lemma ReadyIsNormal(sep: char, out: string, rest: string)
    requires Ready(sep, out, rest)
    ensures Normal(sep, out)
  {
  }

  /** A normal path is left as it is. */
  lemma {:induction false} NormalIsKept(sep: char, out: string, rest: string)
    requires IsSeparator(sep) && Normal(sep, out + rest)
    ensures Clean(sep, out, rest) == out + rest
    decreases |rest|
  {
    if rest == [] {
      assert out + rest == out;
    } else {
      StepKeeps(sep, out, rest);
      assert (out + [rest[0]]) + rest[1..] == out + rest;
      NormalIsKept(sep, out + [rest[0]], rest[1..]);
    }
  }

  lemma StepKeeps(sep: char, out: string, rest: string)
    requires IsSeparator(sep) && rest != [] && Normal(sep, out + rest)
    ensures Step(sep, out, rest) == (out + [rest[0]], 1)
  {
    var all, n := out + rest, |out|;
    assert GoodAt(sep, all, n);
    assert all[n] == rest[0];
    assert n > 0 ==> all[n - 1] == out[n - 1];
    assert n == 1 ==> out + [':'] == [out[0], ':'];
    if |rest| > 1 {
      assert GoodAt(sep, all, n + 1) && all[n + 1] == rest[1];
    }
    if |rest| > 2 {
      assert GoodAt(sep, all, n + 2) && all[n + 2] == rest[2];
    }
  }

  /** The clean-up reaches a normal form in one go, and does nothing to a path that is in normal form. */
  lemma CleanNormalizes(sep: char, src: string)
    requires IsSeparator(sep)
    ensures Normal(sep, Clean(sep, [], src))
    ensures Clean(sep, [], Clean(sep, [], src)) == Clean(sep, [], src)
    ensures Clean(sep, [], src) == src <==> Normal(sep, src)
  {
    hide Clean;
    CleanIsNormal(sep, [], src);
    var out := Clean(sep, [], src);
    assert [] + out == out && [] + src == src;
    NormalIsKept(sep, [], out);
    if Normal(sep, src) {
      NormalIsKept(sep, [], src);
    }
  }

  // ----- drives

  /** A letter and a colon. */
  predicate DriveAt(s: string, i: nat) { 1 <= i < |s| && s[i] == ':' && IsAlpha(s[i - 1]) }

  /** Both slashes separate. */
  lemma Separators(c: char)
    ensures IsSeparator(c) <==> c in "/\\"
  {
    assert "/\\"[0] == '/' && "/\\"[1] == '\\';
  }

  /** Drives are letters of either case. */
  lemma DriveLetters(c: char)
    ensures DriveAt([c, ':'], 1) <==> c in "abcdefghijklmnopqrstuvwxyz" || c in "ABCDEFGHIJKLMNOPQRSTUVWXYZ"
  {
    LowerCase(c);
    UpperCase(c);
  }

  lemma LowerCase(c: char)
    ensures 'a' <= c <= 'z' <==> c in "abcdefghijklmnopqrstuvwxyz"
  {
    var letters := "abcdefghijklmnopqrstuvwxyz";
    if 'a' <= c <= 'z' {
      assert letters[c as int - 'a' as int] == c;
    }
  }

  lemma UpperCase(c: char)
    ensures 'A' <= c <= 'Z' <==> c in "ABCDEFGHIJKLMNOPQRSTUVWXYZ"
  {
    var letters := "ABCDEFGHIJKLMNOPQRSTUVWXYZ";
    if 'A' <= c <= 'Z' {
      assert letters[c as int - 'A' as int] == c;
    }
  }

  /** No drive but at the beginning. */
  predicate DriveFirst(s: string) { forall i :: 2 <= i < |s| ==> !DriveAt(s, i) }

  /** The path from its last drive on. */
  function FromDrive(s: string): (t: string)
    ensures DriveFirst(t)
    decreases |s|
  {
    if DriveFirst(s) then s else FromDrive(s[1..])
  }

  /** A drive makes the clean-up forget everything before it. */
  lemma {:induction false} DriveForgets(sep: char, out: string, rest: string, i: nat)
    requires DriveAt(rest, i)
    ensures Clean(sep, out, rest) == Clean(sep, [], rest[i - 1..])
    decreases |rest|
  {
    hide Clean;
    CleanStep(sep, out, rest);
    var (out', k) := Step(sep, out, rest);
    if i == 1 {
      assert out' == out + [rest[0]] && k == 1;
      CleanStep(sep, [], rest);
      CleanStep(sep, out', rest[1..]);
      CleanStep(sep, [rest[0]], rest[1..]);
      assert rest[0..] == rest && [] + [rest[0]] == [rest[0]];
    } else {
      assert k < i;
      DriveForgets(sep, out', rest[k..], i - k);
      assert rest[k..][i - k - 1..] == rest[i - 1..];
    }
  }

  /** Only the path from its last drive on matters. */
  lemma {:induction false} CleanFromDrive(sep: char, src: string)
    ensures Clean(sep, [], src) == Clean(sep, [], FromDrive(src))
    decreases |src|
  {
    hide Clean;
    if i :| 2 <= i < |src| && DriveAt(src, i) {
      DriveForgets(sep, [], src, i);
      DriveForgets(sep, [], src[1..], i - 1);
      assert src[1..][i - 2..] == src[i - 1..];
      CleanFromDrive(sep, src[1..]);
    }
  }

  // ----- where a path leads

  /** Following a path: how far above its start, the names gone down by from there, and the segment being read. */
  datatype Walk = Walk(up: nat, stack: seq<string>, seg: string)

  const HERE := Walk(0, [], "")

  /** The end of a segment. */
  function Close(w: Walk): Walk
  {
    if w.seg == "" || w.seg == "." then w.(seg := "")
    else if w.seg == ".." then
      if w.stack == [] then Walk(w.up + 1, [], "") else Walk(w.up, w.stack[..|w.stack| - 1], "")
    else Walk(w.up, w.stack + [w.seg], "")
  }

  function Move(w: Walk, c: char): Walk { if IsSeparator(c) then Close(w) else w.(seg := w.seg + [c]) }

  function Go(w: Walk, path: string): Walk
    decreases |path|
  {
    if path == [] then w else Go(Move(w, path[0]), path[1..])
  }

  /** Where a path leads, from its start or, if it is absolute, from the root. */
  function Target(path: string): Walk { Close(Go(HERE, path)) }

  predicate IsAbsolute(path: string) { path != [] && IsSeparator(path[0]) }

  /** The path begins with a separator, or has one after a prefix that leads back to where it began. */
  predicate Rooted(path: string)
  {
    exists i :: 0 <= i < |path| && IsSeparator(path[i]) && Go(HERE, path[..i]) == HERE
  }

  /**
   Up to here the clean-up can say how far the path climbs: a rooted one not at all, another one level. Only
   segments that a separator ends count.
   */
  predicate Kept(path: string) { Go(HERE, path).up <= if Rooted(path) then 0 else 1 }

  lemma {:induction false} GoAppend(w: Walk, a: string, b: string)
    ensures Go(w, a + b) == Go(Go(w, a), b)
    decreases |a|
  {
    if a == [] {
      assert a + b == b;
    } else {
      assert (a + b)[1..] == a[1..] + b && (a + b)[0] == a[0];
      GoAppend(Move(w, a[0]), a[1..], b);
    }
  }

  lemma GoSnoc(w: Walk, path: string, c: char)
    ensures Go(w, path + [c]) == Move(Go(w, path), c)
  {
    GoAppend(w, path, [c]);
    assert [c][1..] == [];
  }

  lemma {:induction false} GoPlain(w: Walk, name: string)
    requires forall i :: 0 <= i < |name| ==> !IsSeparator(name[i])
    ensures Go(w, name) == w.(seg := w.seg + name)
    decreases |name|
  {
    if name == [] {
      assert w.seg + name == w.seg;
    } else {
      GoPlain(Move(w, name[0]), name[1..]);
      assert (w.seg + [name[0]]) + name[1..] == w.seg + name;
    }
  }

  lemma {:induction false} UpGrows(w: Walk, path: string)
    ensures Go(w, path).up >= w.up
    decreases |path|
  {
    if path != [] {
      UpGrows(Move(w, path[0]), path[1..]);
    }
  }

  /** Starting further up only adds to the climb. */
  lemma {:induction false} GoHigher(u: nat, w: Walk, path: string)
    ensures Go(w.(up := u + w.up), path) == Go(w, path).(up := u + Go(w, path).up)
    decreases |path|
  {
    if path != [] {
      GoHigher(u, Move(w, path[0]), path[1..]);
    }
  }

  lemma RootedSnoc(path: string, c: char)
    ensures Rooted(path + [c]) <==> Rooted(path) || (IsSeparator(c) && Go(HERE, path) == HERE)
  {
    hide Go;
    assert forall i :: 0 <= i < |path| ==> (path + [c])[..i] == path[..i] && (path + [c])[i] == path[i];
    assert (path + [c])[..|path|] == path;
    if i :| 0 <= i < |path| && IsSeparator(path[i]) && Go(HERE, path[..i]) == HERE {
      assert Go(HERE, (path + [c])[..i]) == HERE && IsSeparator((path + [c])[i]);
    }
    if IsSeparator(c) && Go(HERE, path) == HERE {
      assert Go(HERE, (path + [c])[..|path|]) == HERE && IsSeparator((path + [c])[|path|]);
    }
  }

  /** A climb is not taken back, and a path that has climbed cannot become rooted any more. */
  lemma KeptPrefix(path: string, c: char)
    requires Kept(path + [c])
    ensures Kept(path)
  {
    hide Go, Rooted;
    GoSnoc(HERE, path, c);
    RootedSnoc(path, c);
  }

  // ----- a clean output

  /** A clean output is cut by Back into what stays and the last name, whose segment is the walk's. */
  lemma LastSegment(sep: char, out: string)
    requires IsSeparator(sep) && Normal(sep, out)
    ensures var p := Back(out, sep);
            && p <= out && Go(HERE, p).seg == ""
            && Go(HERE, out) == Go(HERE, p).(seg := out[|p|..])
  {
    hide Go;
    var p := Back(out, sep);
    var name := out[|p|..];
    assert out == p + name;
    SegmentBegins(sep, p);
    OwnSeparators(sep, out);
    forall i | 0 <= i < |name|
      ensures !IsSeparator(name[i])
    {
      assert name[i] == out[|p| + i];
    }
    GoAppend(HERE, p, name);
    GoPlain(Go(HERE, p), name);
    assert "" + name == name;
  }

  lemma SegmentBegins(sep: char, p: string)
    requires IsSeparator(sep) && (p == [] || EndsWith(p, sep))
    ensures Go(HERE, p).seg == ""
  {
    hide Go;
    if p == [] {
      GoNowhere();
    } else {
      assert p == p[..|p| - 1] + [sep];
      GoSnoc(HERE, p[..|p| - 1], sep);
    }
  }

  lemma GoNowhere()
    ensures Go(HERE, []) == HERE
  {
  }

  lemma OwnSeparators(sep: char, s: string)
    requires Normal(sep, s)
    ensures forall i :: 0 <= i < |s| && IsSeparator(s[i]) ==> s[i] == sep
  {
    forall i | 0 <= i < |s|
      ensures IsSeparator(s[i]) ==> s[i] == sep
    {
      assert GoodAt(sep, s, i);
    }
  }

  /** A clean output that ends with a separator, cut before its last name. */
  lemma LastName(sep: char, out: string)
    requires IsSeparator(sep) && Normal(sep, out) && EndsWith(out, sep)
    ensures var init := out[..|out| - 1]; var p := Back(init, sep); var name := init[|p|..];
            && name != "." && (name == "" || name == ".." ==> p == [])
            && Go(HERE, p).seg == "" && Go(HERE, out) == Close(Go(HERE, p).(seg := name))
  {
    hide Go;
    var init := out[..|out| - 1];
    NormalPrefix(sep, init, out);
    LastSegment(sep, init);
    assert out == init + [sep];
    GoSnoc(HERE, init, sep);
    var n, p := |out| - 1, Back(init, sep);
    assert GoodAt(sep, out, n) && out[n] == sep;
    var name := init[|p|..];
    assert forall i :: 0 <= i < |name| ==> out[|p| + i] == name[i];
    assert p != [] ==> out[|p| - 1] == sep;
  }

  /** The three clean outputs that lead no further down than their start, and end with a separator. */
  lemma AtTheTop(sep: char, out: string)
    requires IsSeparator(sep) && Normal(sep, out) && EndsWith(out, sep) && Go(HERE, out).stack == []
    ensures out == [sep] || out == ['.', '.', sep]
    ensures Go(HERE, out).up == if out == [sep] then 0 else 1
  {
    hide Go;
    LastName(sep, out);
    GoNowhere();
    var init := out[..|out| - 1];
    var p := Back(init, sep);
    assert p == [] ==> init[|p|..] == init;
    assert out == init + [sep];
  }

  /** Cutting the last name off undoes going down by it, and does not touch the beginning. */
  lemma BackGoesUp(sep: char, out: string)
    requires IsSeparator(sep) && Normal(sep, out) && EndsWith(out, sep) && Go(HERE, out).stack != []
    ensures var w, out' := Go(HERE, out), Back(out[..|out| - 1], sep);
            && Go(HERE, out') == Walk(w.up, w.stack[..|w.stack| - 1], "")
            && (IsAbsolute(out') <==> IsAbsolute(out))
  {
    hide Go;
    LastName(sep, out);
    GoNowhere();
    var init := out[..|out| - 1];
    var p := Back(init, sep);
    assert p <= init;
    if p == [] {
      OwnSeparators(sep, out);
      assert init[|p|..] == init;
      assert init != [] ==> init[0] == out[0];
    }
  }

  // ----- one step

  /** The output leads where the source has led so far, and from the root if that is rooted. */
  predicate Tracks(out: string, past: string)
  {
    Go(HERE, out) == Go(HERE, past) && (IsAbsolute(out) <==> Rooted(past))
  }

  /** A separator that is written, or not written after another. */
  lemma SeparatorTracks(sep: char, out: string, past: string, c: char, rest: string)
    requires IsSeparator(sep) && IsSeparator(c) && Ready(sep, out, [c] + rest) && Tracks(out, past) && Kept(past)
    ensures var out' := if EndsWith(out, sep) then out else out + [sep];
            Tracks(out', past + [c]) && Kept(past + [c])
  {
    hide Go, Rooted;
    GoSnoc(HERE, past, c);
    GoSnoc(HERE, out, sep);
    RootedSnoc(past, c);
    GoNowhere();
    LastSegment(sep, out);
    assert SeparatorAt([c] + rest, 0);
    if EndsWith(out, sep) {
      assert Back(out, sep) == out && out[|out|..] == "";
      if Go(HERE, out) == HERE {
        AtTheTop(sep, out);
      }
    } else if out != [] {
      SegmentClosed(sep, out);
    }
  }

  /** The segment that a separator closes is not empty, and only a leading one is `..`. */
  lemma SegmentClosed(sep: char, out: string)
    requires IsSeparator(sep) && Normal(sep, out) && out != [] && !EndsWith(out, sep)
    requires out != "." && !EndsWithDots(sep, out) && !EndsWithDot(sep, out)
    ensures Go(HERE, out).seg != ""
    ensures Go(HERE, out).seg == ".." ==> out == ".." && Go(HERE, out).up == 0
  {
    hide Go;
    LastSegment(sep, out);
    var p := Back(out, sep);
    assert p != out;
    GoNowhere();
    assert out == p + out[|p|..];
    if p != [] {
      DotsAfter(sep, p);
    }
  }

  lemma DotsAfter(sep: char, p: string)
    requires EndsWith(p, sep)
    ensures EndsWithDots(sep, p + "..")
  {
    assert (p + "..")[|p| - 1] == sep;
  }

  lemma CharacterTracks(sep: char, out: string, past: string, c: char)
    requires !IsSeparator(c) && Tracks(out, past) && Kept(past)
    ensures Tracks(out + [c], past + [c]) && Kept(past + [c])
  {
    hide Go, Rooted;
    GoSnoc(HERE, past, c);
    GoSnoc(HERE, out, c);
    RootedSnoc(past, c);
  }

  /** A `.` segment that is dropped. */
  lemma DotTracks(sep: char, out: string, past: string, end: char)
    requires IsSeparator(sep) && IsSeparator(end) && Normal(sep, out) && (out == [] || EndsWith(out, sep))
    requires Tracks(out, past) && Kept(past)
    ensures Tracks(out, past + ['.'] + [end]) && Kept(past + ['.'] + [end])
  {
    hide Go, Rooted;
    LastSegment(sep, out);
    assert Back(out, sep) == out && out[|out|..] == "";
    GoSnoc(HERE, past, '.');
    GoSnoc(HERE, past + ['.'], end);
    RootedSnoc(past, '.');
    RootedSnoc(past + ['.'], end);
    assert "" + ['.'] == ".";
  }

  /** A `..` segment that takes back a name, or is one climb too many. */
  lemma DotsTrack(sep: char, out: string, past: string, end: char)
    requires IsSeparator(sep) && IsSeparator(end) && Normal(sep, out) && EndsWith(out, sep)
    requires Tracks(out, past) && Kept(past)
    ensures var out', past' := Back(out[..|out| - 1], sep), past + ['.'] + ['.'] + [end];
            && Kept(past + ['.'] + ['.'])
            && if Kept(past') then Tracks(out', past')
               else out' == [] && Go(HERE, past') == Walk(Go(HERE, past).up + 1, [], "")
  {
    hide Go, Rooted;
    LastSegment(sep, out);
    assert Back(out, sep) == out && out[|out|..] == "";
    GoSnoc(HERE, past, '.');
    GoSnoc(HERE, past + ['.'], '.');
    GoSnoc(HERE, past + ['.'] + ['.'], end);
    RootedSnoc(past, '.');
    RootedSnoc(past + ['.'], '.');
    RootedSnoc(past + ['.'] + ['.'], end);
    assert ("" + ['.']) + ['.'] == "..";
    if Go(HERE, out).stack == [] {
      AtTheTop(sep, out);
      TopBack(sep, out);
    } else {
      BackGoesUp(sep, out);
    }
  }

  lemma TopBack(sep: char, out: string)
    requires IsSeparator(sep) && (out == [sep] || out == ['.', '.', sep])
    ensures Back(out[..|out| - 1], sep) == []
  {
    if out == [sep] {
      assert out[..0] == [];
    } else {
      assert out[..2] == ['.', '.'] && ['.', '.'][..1] == ['.'] && ['.'][..0] == [];
      assert Back(['.'], sep) == Back([], sep);
      assert Back(['.', '.'], sep) == Back(['.'], sep);
    }
  }

  lemma StepColon(sep: char, out: string, rest: string)
    requires rest != [] && rest[0] == ':' && (out == [] || !IsAlpha(out[|out| - 1]) || |out| == 1)
    ensures Step(sep, out, rest) == (out + [':'], 1)
  {
    if |out| == 1 {
      assert [out[0], ':'] == out + [':'];
    }
  }

  /** Where no drive begins, a colon is a character like others. */
  lemma ColonIsPlain(sep: char, out: string, past: string, rest: string)
    requires rest != [] && rest[0] == ':' && DriveFirst(past + rest) && Tracks(out, past) && |out| <= |past|
    ensures Step(sep, out, rest) == (out + [':'], 1)
    ensures |out| >= 2 ==> !IsAlpha(out[|out| - 1])
  {
    hide Go, Rooted, Step;
    if out != [] && IsAlpha(out[|out| - 1]) {
      var n, m := |past| - 1, |out| - 1;
      assert past == past[..n] + [past[n]] && out == out[..m] + [out[m]];
      GoSnoc(HERE, past[..n], past[n]);
      GoSnoc(HERE, out[..m], out[m]);
      var a, b := Go(HERE, past[..n]).seg, Go(HERE, out[..m]).seg;
      assert !IsSeparator(out[m]) && Go(HERE, past).seg == b + [out[m]];
      assert !IsSeparator(past[n]) && a + [past[n]] == b + [out[m]];
      assert (a + [past[n]])[|a|] == (b + [out[m]])[|b|];
      assert |past| >= 2 ==> !DriveAt(past + rest, |past|);
      assert |out| == 1;
    }
    StepColon(sep, out, rest);
  }

  /** What the source has led to after a step, and whether the output still tells. */
  lemma StepTracks(sep: char, out: string, past: string, rest: string)
    requires IsSeparator(sep) && rest != [] && Ready(sep, out, rest) && DriveFirst(past + rest)
    requires Tracks(out, past) && Kept(past) && |out| <= |past|
    ensures var (out', k) := Step(sep, out, rest);
            && k <= |rest| && |out'| <= |past| + k
            && if Kept(past + rest[..k]) then Tracks(out', past + rest[..k])
               else out' == [] && IsLostClimb(past + rest[..k])
  {
    hide Go, Rooted, Normal, Back, Kept, Tracks;
    var (out', k) := Step(sep, out, rest);
    ReadyIsNormal(sep, out, rest);
    if k == 1 {
      assert rest[..1] == [rest[0]];
      if IsSeparator(rest[0]) {
        assert [rest[0]] + rest[1..] == rest;
        SeparatorTracks(sep, out, past, rest[0], rest[1..]);
      } else {
        if rest[0] == ':' { ColonIsPlain(sep, out, past, rest); }
        CharacterTracks(sep, out, past, rest[0]);
      }
    } else if k == 2 {
      assert past + rest[..2] == past + ['.'] + [rest[1]];
      DotTracks(sep, out, past, rest[1]);
    } else {
      assert past + rest[..3] == past + ['.'] + ['.'] + [rest[2]];
      DotsTrack(sep, out, past, rest[2]);
      Lost(past, rest[2]);
    }
  }

  /** The path has just climbed further than the clean-up can say. */
  predicate IsLostClimb(path: string)
  {
    && path != [] && !Kept(path) && Kept(path[..|path| - 1])
    && Go(HERE, path) == Walk(Go(HERE, path).up, [], "") && Go(HERE, path).up >= 1
  }

  lemma Lost(past: string, end: char)
    requires Kept(past + ['.'] + ['.'])
    ensures var path := past + ['.'] + ['.'] + [end];
            !Kept(path) && Go(HERE, path) == Walk(Go(HERE, past).up + 1, [], "") ==> IsLostClimb(path)
  {
    hide Go, Rooted, Kept;
    var path := past + ['.'] + ['.'] + [end];
    assert path[..|path| - 1] == past + ['.'] + ['.'];
  }

  // ----- the whole path

  /** The end of the first climb that is lost. */
  function LostAt(path: string): (n: nat)
    requires !Kept(path)
    ensures 0 < n <= |path|
    decreases |path|
  {
    if path == [] || Kept(path[..|path| - 1]) then |path| else LostAt(path[..|path| - 1])
  }

  /** What the clean-up remembers of a path: what follows the last climb that is lost. */
  function Remembered(path: string): string
    decreases |path|
  {
    if Kept(path) then path else Remembered(path[LostAt(path)..])
  }

  lemma {:induction false} LostAtIs(path: string, n: nat)
    requires n <= |path| && IsLostClimb(path[..n])
    ensures !Kept(path) && LostAt(path) == n
    decreases |path|
  {
    hide Kept, Go;
    if n == |path| {
      assert path[..n] == path;
    } else {
      var init := path[..|path| - 1];
      assert init[..n] == path[..n] && init + [path[|path| - 1]] == path;
      LostAtIs(init, n);
      if Kept(path) {
        KeptPrefix(init, path[|path| - 1]);
      }
    }
  }

  /** A clean-up in progress: it either keeps track to the end, or starts afresh after a lost climb. */
  lemma {:induction false} CleanTracks(sep: char, out: string, past: string, rest: string)
    requires IsSeparator(sep) && DriveFirst(past + rest) && Ready(sep, out, rest)
    requires Tracks(out, past) && Kept(past) && |out| <= |past|
    ensures var path := past + rest;
            if Kept(path) then Tracks(Clean(sep, out, rest), path)
            else Clean(sep, out, rest) == Clean(sep, [], path[LostAt(path)..]) && IsLostClimb(path[..LostAt(path)])
    decreases |rest|
  {
    hide Step, Ready, Kept, Tracks, Go, IsLostClimb, LostAt, DriveFirst;
    if rest == [] {
      assert past + rest == past;
    } else {
      StepTracks(sep, out, past, rest);
      StepReady(sep, out, rest);
      StepSize(sep, out, rest);
      var (out', k) := Step(sep, out, rest);
      var now := past + rest[..k];
      assert now + rest[k..] == past + rest;
      if Kept(now) {
        CleanTracks(sep, out', now, rest[k..]);
      } else {
        assert (past + rest)[..|now|] == now && (past + rest)[|now|..] == rest[k..];
        LostAtIs(past + rest, |now|);
      }
    }
  }

  /** A lost climb leaves its height behind. */
  lemma HigherTarget(path: string, n: nat)
    requires n <= |path| && Go(HERE, path[..n]) == Walk(Go(HERE, path[..n]).up, [], "")
    ensures Target(path).up == Go(HERE, path[..n]).up + Target(path[n..]).up
  {
    hide Go;
    assert path[..n] + path[n..] == path;
    GoAppend(HERE, path[..n], path[n..]);
    GoHigher(Go(HERE, path[..n]).up, HERE, path[n..]);
  }

  /**
   Where a path with no drive but at its front leads after the clean-up: to where what is remembered of it leads,
   from the root if and only if that is rooted. So its target is kept if and only if it never climbs two levels,
   or one if it is rooted; and then a relative path becomes absolute if and only if it is rooted.
   */
  lemma {:induction false} CleanExactly(sep: char, src: string)
    requires IsSeparator(sep) && DriveFirst(src)
    ensures var out := Clean(sep, [], src);
            && Target(out) == Target(Remembered(src))
            && (IsAbsolute(out) <==> Rooted(Remembered(src)))
            && (Target(out) == Target(src) <==> Kept(src))
            && Target(out).up <= Target(src).up
    decreases |src|
  {
    hide Clean, Go, Rooted, Kept, LostAt;
    BeginsTracked(sep, src);
    assert [] + src == src;
    CleanTracks(sep, [], [], src);
    if !Kept(src) {
      var n := LostAt(src);
      HigherTarget(src, n);
      assert forall i: nat :: DriveAt(src[n..], i) ==> DriveAt(src, n + i);
      CleanExactly(sep, src[n..]);
    }
  }

  /** The same for every path: what comes before its last drive is forgotten, and the rest decides. */
  lemma CleanExact(sep: char, src: string)
    requires IsSeparator(sep)
    ensures var out, path := Clean(sep, [], src), FromDrive(src);
            && Target(out) == Target(Remembered(path))
            && (IsAbsolute(out) <==> Rooted(Remembered(path)))
            && (Target(out) == Target(path) <==> Kept(path))
            && Target(out).up <= Target(path).up
  {
    CleanFromDrive(sep, src);
    CleanExactly(sep, FromDrive(src));
  }

  lemma BeginsTracked(sep: char, src: string)
    ensures Tracks([], []) && Kept([]) && Ready(sep, [], src)
  {
  }

  /** A relative path: when it leads elsewhere, and, as long as it does not, when it becomes absolute. */
  lemma RelativePaths(sep: char, src: string)
    requires IsSeparator(sep) && DriveFirst(src) && !IsAbsolute(src)
    ensures var out := Clean(sep, [], src);
            && (Target(out) == Target(src) <==> Go(HERE, src).up <= if Rooted(src) then 0 else 1)
            && (Target(out) == Target(src) ==>
                  (IsAbsolute(out) <==> exists i :: 0 < i < |src| && IsSeparator(src[i - 1]) && IsSeparator(src[i])
                                                    && Go(HERE, src[..i]) == HERE))
  {
    hide Clean, Go;
    CleanExactly(sep, src);
    forall i | 0 < i < |src| && Go(HERE, src[..i]) == HERE
      ensures IsSeparator(src[i - 1])
    {
      assert src[..i] == src[..i - 1] + [src[i - 1]];
      GoSnoc(HERE, src[..i - 1], src[i - 1]);
    }
  }

  /** An absolute path leads elsewhere when it climbs at all, and loses the root when what is remembered has none. */
  lemma AbsolutePaths(sep: char, src: string)
    requires IsSeparator(sep) && DriveFirst(src) && IsAbsolute(src)
    ensures var out := Clean(sep, [], src);
            && (Target(out) == Target(src) <==> Go(HERE, src).up == 0)
            && (Target(out) == Target(src) ==> IsAbsolute(out))
            && (IsAbsolute(out) <==> Rooted(Remembered(src)))
  {
    hide Clean, Go;
    CleanExactly(sep, src);
    GoNowhere();
    assert src[..0] == [];
  }

  // ----- what becomes of a drive

  /** Somewhere after n characters the path is back at its start, or above. */
  predicate BackAtStart(path: string, n: nat)
  {
    exists i :: n < i <= |path| && IsSeparator(path[i - 1]) && Go(HERE, path[..i]).stack == []
  }

  predicate NoDrive(s: string) { forall i :: 1 <= i < |s| ==> !DriveAt(s, i) }

  /** Where there is no drive, none appears. */
  lemma {:induction false} NoDriveStays(sep: char, out: string, rest: string)
    requires IsSeparator(sep) && NoDrive(out) && NoDrive(rest)
    requires rest != [] && rest[0] == ':' ==> out == [] || !IsAlpha(out[|out| - 1])
    ensures NoDrive(Clean(sep, out, rest))
    decreases |rest|
  {
    hide Clean;
    if rest == [] {
      CleanDone(sep, out);
    } else {
      CleanStep(sep, out, rest);
      StepSize(sep, out, rest);
      var (out', k) := Step(sep, out, rest);
      assert forall i :: 1 <= i < |rest| - k && DriveAt(rest[k..], i) ==> DriveAt(rest, k + i);
      assert forall i :: 1 <= i < |out| && i < |out'| && DriveAt(out', i) ==> DriveAt(out, i);
      assert |rest| > 1 ==> !DriveAt(rest, 1);
      NoDriveStays(sep, out', rest[k..]);
    }
  }

  /** An output that begins with a drive and ends with a separator has led further down than its start. */
  lemma BelowDrive(sep: char, out: string)
    requires IsSeparator(sep) && Normal(sep, out) && EndsWith(out, sep) && DriveAt(out, 1)
    ensures Go(HERE, out).stack != []
  {
    hide Go, Normal;
    if Go(HERE, out).stack == [] {
      AtTheTop(sep, out);
    }
  }

  /** A `..` segment there only goes up. */
  lemma DriveKeepsUp(sep: char, out: string, past: string, end: char)
    requires IsSeparator(sep) && IsSeparator(end) && Normal(sep, out) && EndsWith(out, sep) && DriveAt(out, 1)
    requires Tracks(out, past) && Kept(past)
    ensures Kept(past + ['.'] + ['.'] + [end])
  {
    hide Go, Rooted, Normal;
    BelowDrive(sep, out);
    LastSegment(sep, out);
    assert Back(out, sep) == out;
    GoSnoc(HERE, past, '.');
    GoSnoc(HERE, past + ['.'], '.');
    GoSnoc(HERE, past + ['.'] + ['.'], end);
    RootedSnoc(past, '.');
    RootedSnoc(past + ['.'], '.');
    RootedSnoc(past + ['.'] + ['.'], end);
    assert ("" + ['.']) + ['.'] == "..";
  }

  /** The shapes of a step from there. */
  lemma DriveShapes(sep: char, out: string, rest: string)
    requires IsSeparator(sep) && rest != [] && DriveAt(out, 1) && (rest[0] == ':' ==> !IsAlpha(out[|out| - 1]))
    ensures var (out', k) := Step(sep, out, rest);
            && 1 <= k <= |rest| && (k == 3 ==> rest[..3] == ['.', '.', rest[2]] && EndsWith(out, sep))
            && (IsSeparator(rest[k - 1]) && out' != [] ==> EndsWith(out', sep))
            && (forall i :: 0 <= i < k - 1 ==> rest[i] == '.') && (k == 3 ==> IsSeparator(rest[2]))
            && (if out' == [] then k == 3 else DriveAt(out', 1) && out'[0] == out[0])
  {
  }

  /** One step from an output that begins with a drive: it keeps it, or the path has left it. */
  lemma DriveStep(sep: char, out: string, past: string, rest: string)
    requires IsSeparator(sep) && rest != [] && Ready(sep, out, rest) && DriveFirst(past + rest)
    requires Tracks(out, past) && Kept(past) && |out| <= |past| && DriveAt(out, 1)
    ensures var (out', k) := Step(sep, out, rest); var now := past + rest[..k];
            && 1 <= k <= |rest| && Kept(now) && Tracks(out', now) && |out'| <= |now| && Ready(sep, out', rest[k..])
            && (forall i :: 0 <= i < k - 1 ==> !IsSeparator(rest[i]))
            && (if out' == [] then IsSeparator(rest[k - 1]) && Go(HERE, now).stack == []
                else DriveAt(out', 1) && out'[0] == out[0]
                     && (IsSeparator(rest[k - 1]) ==> Go(HERE, now).stack != []))
  {
    hide Go, Rooted, Normal, Kept, Step, Ready;
    StepTracks(sep, out, past, rest);
    StepReady(sep, out, rest);
    ReadyIsNormal(sep, out, rest);
    var (out', k) := Step(sep, out, rest);
    var now := past + rest[..k];
    if rest[0] == ':' {
      ColonIsPlain(sep, out, past, rest);
    }
    DriveShapes(sep, out, rest);
    ReadyIsNormal(sep, out', rest[k..]);
    if k == 3 {
      DriveKeepsUp(sep, out, past, rest[2]);
      assert now == past + ['.'] + ['.'] + [rest[2]];
    }
    if out' == [] {
      GoNowhere();
    } else if IsSeparator(rest[k - 1]) {
      BelowDrive(sep, out');
    }
  }

  lemma {:induction false} DriveTracked(sep: char, out: string, past: string, rest: string)
    requires IsSeparator(sep) && Ready(sep, out, rest) && DriveFirst(past + rest)
    requires Tracks(out, past) && Kept(past) && |out| <= |past| && DriveAt(out, 1)
    ensures var all := Clean(sep, out, rest);
            if BackAtStart(past + rest, |past|) then !DriveAt(all, 1) else DriveAt(all, 1) && all[0] == out[0]
    decreases |rest|
  {
    hide Clean, Go, Rooted, Kept, Tracks, Ready, Step;
    var path := past + rest;
    if rest == [] {
      CleanDone(sep, out);
    } else {
      CleanStep(sep, out, rest);
      DriveStep(sep, out, past, rest);
      var (out', k) := Step(sep, out, rest);
      var now := past + rest[..k];
      assert now + rest[k..] == path && path[..|now|] == now;
      assert path[|now| - 1] == rest[k - 1];
      assert forall j :: |past| <= j < |path| ==> path[j] == rest[j - |past|];
      if out' == [] {
        assert forall i :: 1 <= i < |rest| - k && DriveAt(rest[k..], i) ==> DriveAt(path, |now| + i);
        NoDriveStays(sep, [], rest[k..]);
      } else {
        DriveTracked(sep, out', now, rest[k..]);
      }
    }
  }

  /**
   A drive at the front stays if and only if the path never comes back to its start. Once it has, as in
   `c:/../x` and `c:a/../x`, the output is one without any drive.
   */
  lemma DriveKept(sep: char, src: string)
    requires IsSeparator(sep) && DriveFirst(src) && DriveAt(src, 1)
    ensures var out := Clean(sep, [], src);
            && (DriveAt(out, 1) <==> !BackAtStart(src, 2))
            && (DriveAt(out, 1) ==> out[0] == src[0])
  {
    hide Clean, Go;
    var d := src[..2];
    assert d == [src[0]] + [':'] && d + src[2..] == src && [] + [src[0]] == [src[0]];
    assert src[1..][1..] == src[2..] && [src[0], ':'] == d;
    CleanStep(sep, [], src);
    CleanStep(sep, [src[0]], src[1..]);
    DriveNormal(sep, d);
    GoNowhere();
    assert d[..0] == [];
    GoSnoc(HERE, [], src[0]);
    GoSnoc(HERE, [src[0]], ':');
    DriveTracked(sep, d, d, src[2..]);
  }

  lemma PlainStep(sep: char, out: string, c: char, more: string)
    requires Step(sep, out, [c] + more) == (out + [c], 1)
    ensures Clean(sep, out, [c] + more) == Clean(sep, out + [c], more)
  {
    hide Clean, Step;
    CleanStep(sep, out, [c] + more);
    assert ([c] + more)[1..] == more;
  }

  /** A climb at the beginning is kept. */
  lemma OneClimb(sep: char, more: string)
    requires IsSeparator(sep)
    ensures Clean(sep, [], ['.', '.', sep] + more) == Clean(sep, ['.', '.', sep], more)
  {
    hide Clean;
    assert ['.', '.', sep] + more == ['.'] + (['.'] + ([sep] + more));
    PlainStep(sep, [], '.', ['.'] + ([sep] + more));
    assert [] + ['.'] == ['.'];
    PlainStep(sep, ['.'], '.', [sep] + more);
    assert ['.'] + ['.'] == ['.', '.'];
    PlainStep(sep, ['.', '.'], sep, more);
    assert ['.', '.'] + [sep] == ['.', '.', sep];
  }

  /** Two climbs forget all that went before them. */
  lemma TwoClimbs(sep: char, rest: string)
    requires IsSeparator(sep)
    ensures Clean(sep, [], ['.', '.', sep, '.', '.', sep] + rest) == Clean(sep, [], rest)
  {
    hide Clean, Back;
    var more := ['.', '.', sep] + rest;
    assert ['.', '.', sep, '.', '.', sep] + rest == ['.', '.', sep] + more;
    OneClimb(sep, more);
    CleanStep(sep, ['.', '.', sep], more);
    TopBack(sep, ['.', '.', sep]);
    assert more[3..] == rest;
  }
}
