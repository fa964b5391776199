/** Frame naming and formatting: how one raw symbolizer record becomes a `Frame`
    (frame.go).

    As in `Text`, the functions are plain definitions and the lemma after each one
    states what it computes. */
module FrameNames {
  import opened Text

  /** One logical call as the platform symbolizer reports it (Go's runtime.Frame):
      the fully qualified function name, the source path and the line. */
  datatype RawFrame = RawFrame(functionName: string, file: string, line: int)

  /** A resolved frame. Two frames are equal exactly when all five fields are. */
  datatype Frame = Frame(
    packageName: string,
    functionName: string,
    fileName: string,
    line: int,
    formatted: string)
  {
    /** The display text of the frame (Frame.String); for a frame whose text was
        built from its fields, the line can be read back from it. */
    function String(): (s: string)
      ensures WellFormed(this) ==> ParseLine(s) == Some(line)
    {
      FormattedLineRoundTrip(packageName, functionName, fileName, line);
      formatted
    }
  }

  /** The zero value `Frame{}`, returned by an exhausted iterator. */
  const ZeroFrame := Frame("", "", "", 0, "")

  /** A frame whose display text is the one `toFormatted` builds from its other fields. */
  predicate WellFormed(f: Frame) {
    f.formatted == ToFormatted(f.packageName, f.functionName, f.fileName, f.line)
  }

  /** The characters of the class `[\*\(\)]` that splitFunction deletes from the
      function part (pointer-receiver decoration such as `(*T).m`). */
  predicate IsReceiverNoise(c: char) {
    c == '*' || c == '(' || c == ')'
  }

  /** `re.ReplaceAllString(s, "")` for that class: `s` with every receiver-noise
      character deleted. */
  function StripReceiverNoise(s: string): string {
    if |s| == 0 then []
    else (if IsReceiverNoise(s[0]) then [] else [s[0]]) + StripReceiverNoise(s[1..])
  }

  /** The result holds no noise, and a string without noise is left as it is. */
  lemma {:induction false} StripReceiverNoiseSpec(s: string)
    ensures var r := StripReceiverNoise(s);
      && |r| <= |s|
      && (forall k :: 0 <= k < |r| ==> !IsReceiverNoise(r[k]))
      && ((forall k :: 0 <= k < |s| ==> !IsReceiverNoise(s[k])) ==> r == s)
  {
    if |s| > 0 {
      StripReceiverNoiseSpec(s[1..]);
    }
  }

  /** Stripping a concatenation strips each part, so together with `StripCounts` the
      result is the input with exactly the noise characters taken out, in order. */
  lemma {:induction false} StripConcat(a: string, b: string)
    ensures StripReceiverNoise(a + b) == StripReceiverNoise(a) + StripReceiverNoise(b)
  {
    if |a| > 0 {
      assert (a + b)[1..] == a[1..] + b;
      StripConcat(a[1..], b);
    } else {
      assert a + b == b;
    }
  }

  /** Stripping deletes every occurrence of a noise character and keeps every
      occurrence of any other character. */
  lemma {:induction false} StripCounts(s: string, c: char)
    ensures multiset(StripReceiverNoise(s))[c] == if IsReceiverNoise(c) then 0 else multiset(s)[c]
  {
    if |s| > 0 {
      assert s == [s[0]] + s[1..];
      StripCounts(s[1..], c);
    }
  }

  /** Stripping introduces no character: one absent before is absent after. */
  lemma {:induction false} StripKeepsAbsence(s: string, c: char)
    requires Lacks(s, c)
    ensures Lacks(StripReceiverNoise(s), c)
  {
    if |s| > 0 {
      StripKeepsAbsence(s[1..], c);
    }
  }

  lemma StripIdempotent(s: string)
    ensures StripReceiverNoise(StripReceiverNoise(s)) == StripReceiverNoise(s)
  {
    StripReceiverNoiseSpec(s);
    StripReceiverNoiseSpec(StripReceiverNoise(s));
  }

  /** The names on which splitFunction does not panic: with `i` the index after the
      last '/' and `j` the index of the first '.' from there on (-1 for none), the
      slice bound `i + j` is negative exactly when the name has no '/' and no '.'. */
  predicate Splittable(name: string) {
    LastIndexOf(name, '/') >= 0 || IndexOf(name, '.') >= 0
  }

  /** Splittable in plain words: the name holds a '/' or a '.'. Exactly then is the
      bound `i + j` of splitFunction non-negative; otherwise it is -1 and slicing
      panics. */
  lemma SplittableIff(name: string)
    ensures Splittable(name) <==> !Lacks(name, '/') || !Lacks(name, '.')
    ensures Splittable(name) <==> CutIndex(name) >= 0
  {
    SearchMissIffAbsent(name, '/');
    SearchMissIffAbsent(name, '.');
    LastIndexOfSpec(name, '/');
    if Splittable(name) {
      CutIndexSpec(name);
    } else {
      assert AfterLastSlash(name) == name;
    }
  }

  /** The text after the last '/' of `s` (all of it when there is none). */
  function AfterLastSlash(s: string): string {
    LastIndexOfSpec(s, '/');
    s[LastIndexOf(s, '/') + 1..]
  }

  /** The last path segment of `name` holds a '.'. Every Go function symbol does. */
  predicate HasPackageDot(name: string) {
    IndexOf(AfterLastSlash(name), '.') >= 0
  }

  /** `p` is the first '.' after the last '/' of `name`, stated without searching:
      `name[p]` is a '.', no '/' follows it, and no '.' lies between it and the
      nearest '/' before it. */
  ghost predicate SplitsAt(name: string, p: int) {
    && 0 <= p < |name|
    && name[p] == '.'
    && (forall k :: p < k < |name| ==> name[k] != '/')
    && (forall k :: 0 <= k < p && Lacks(name[k..p], '/') ==> name[k] != '.')
  }

  /** At most one position splits a name. */
  lemma SplitPointUnique(name: string, p: int, q: int)
    requires SplitsAt(name, p) && SplitsAt(name, q)
    ensures p == q
  {
  }

  /** The index splitFunction cuts at, `i + j` in the source. */
  function CutIndex(name: string): int {
    LastIndexOf(name, '/') + 1 + IndexOf(AfterLastSlash(name), '.')
  }

  /** On a splittable name the cut is the first '.' after the last '/' when the
      last path segment has one, and otherwise the last '/' itself. */
  lemma CutIndexSpec(name: string)
    requires Splittable(name)
    ensures var cut, last := CutIndex(name), LastIndexOf(name, '/');
      && 0 <= cut < |name| && -1 <= last <= cut
      && name[cut] == (if HasPackageDot(name) then '.' else '/')
      && (forall k :: cut < k < |name| ==> name[k] != '/')
      && (forall k :: last < k < cut ==> name[k] != '.')
  {
    LastIndexOfSpec(name, '/');
    var last := LastIndexOf(name, '/');
    var tail := AfterLastSlash(name);
    assert tail == name[last + 1..];
    IndexOfSpec(tail, '.');
    var j := IndexOf(tail, '.');
    if j < 0 && last < 0 {
      IndexOfSpec(name, '.');
    } else if 0 <= j {
      assert name[last + 1 + j] == tail[j];
      forall k | last < k < last + 1 + j
        ensures name[k] != '.'
      {
        assert name[k] == tail[k - last - 1];
      }
    }
  }

  /** When the last segment holds a '.', the cut is the unique split point. */
  lemma CutIndexSplitsAt(name: string)
    requires Splittable(name) && HasPackageDot(name)
    ensures SplitsAt(name, CutIndex(name))
  {
    CutIndexSpec(name);
    LastIndexOfSpec(name, '/');
    var cut, last := CutIndex(name), LastIndexOf(name, '/');
    forall k | 0 <= k < cut
      ensures Lacks(name[k..cut], '/') ==> name[k] != '.'
    {
      if k <= last {
        assert name[k..cut][last - k] == '/';
      }
    }
  }

  /** splitFunction: the package part is everything before the cut; the function part
      is everything after it with receiver noise deleted. */
  function SplitFunction(name: string): (string, string)
    requires Splittable(name)
  {
    CutIndexSpec(name);
    var cut := CutIndex(name);
    (name[..cut], StripReceiverNoise(name[cut + 1..]))
  }

  /** The package part is a proper prefix of the name; the function part is the rest
      after the cut character, stripped, so it holds no '/' and no receiver noise. */
  lemma SplitFunctionSpec(name: string)
    requires Splittable(name)
    ensures var (pkg, fn) := SplitFunction(name);
      && |pkg| < |name| && pkg == name[..|pkg|]
      && fn == StripReceiverNoise(name[|pkg| + 1..])
      && Lacks(fn, '/')
      && forall k :: 0 <= k < |fn| ==> !IsReceiverNoise(fn[k])
  {
    CutIndexSpec(name);
    var cut := CutIndex(name);
    assert Lacks(name[cut + 1..], '/');
    StripKeepsAbsence(name[cut + 1..], '/');
    StripReceiverNoiseSpec(name[cut + 1..]);
  }

  /** A Go symbol is its package path, a '.', and the raw function part, and that '.'
      is the first one after the last '/'. */
  lemma SplitFunctionRejoins(name: string)
    requires Splittable(name) && HasPackageDot(name)
    ensures var (pkg, fn) := SplitFunction(name);
      && |pkg| < |name|
      && name == pkg + "." + name[|pkg| + 1..]
      && fn == StripReceiverNoise(name[|pkg| + 1..])
      && SplitsAt(name, |pkg|)
  {
    CutIndexSpec(name);
    CutIndexSplitsAt(name);
    var cut := CutIndex(name);
    assert name == name[..cut] + [name[cut]] + name[cut + 1..];
  }

  /** toFileName: the last path segment of `file`. */
  function ToFileName(file: string): string {
    AfterLastSlash(file)
  }

  /** The file name is a suffix of the path without '/', the whole path when it has
      none, and otherwise what follows its last '/'. */
  lemma ToFileNameSpec(file: string)
    ensures var r := ToFileName(file);
      && |r| <= |file| && r == file[|file| - |r|..]
      && Lacks(r, '/')
      && (Lacks(file, '/') ==> r == file)
      && (!Lacks(file, '/') ==> file[|file| - |r| - 1] == '/')
  {
    LastIndexOfSpec(file, '/');
    SearchMissIffAbsent(file, '/');
  }

  lemma ToFileNameIdempotent(file: string)
    ensures ToFileName(ToFileName(file)) == ToFileName(file)
  {
    ToFileNameSpec(file);
    ToFileNameSpec(ToFileName(file));
  }

  /** toFormatted: `"\tat %s.%s(%s:%d)"` filled with the four fields. */
  function ToFormatted(packageName: string, functionName: string, fileName: string, line: int): string {
    "\tat " + packageName + "." + functionName + "(" + fileName + ":" + IntToDecimal(line) + ")"
  }

  /** Reads the line number back out of a display text: the digits between the last
      ':' and the closing ')'. */
  function ParseLine(s: string): Option<int> {
    if |s| == 0 || s[|s| - 1] != ')' then None
    else
      LastIndexOfSpec(s, ':');
      var c := LastIndexOf(s, ':');
      if c < 0 || c == |s| - 1 then None else ParseInt(s[c + 1..|s| - 1])
  }

  /** The display text always carries its line number recoverably, whatever colons
      the package, function or file names contain. */
  lemma FormattedLineRoundTrip(packageName: string, functionName: string, fileName: string, line: int)
    ensures ParseLine(ToFormatted(packageName, functionName, fileName, line)) == Some(line)
  {
    var s := ToFormatted(packageName, functionName, fileName, line);
    var d := IntToDecimal(line);
    IntToDecimalShape(line);
    var p := |s| - |d| - 2;
    assert s == ("\tat " + packageName + "." + functionName + "(" + fileName + ":") + d + ")";
    assert s[p] == ':';
    assert s[p + 1..|s| - 1] == d;
    forall k | p < k < |s|
      ensures s[k] != ':'
    {
      if k < |s| - 1 {
        assert s[k] == d[k - p - 1];
      }
    }
    LastIndexOfAt(s, ':', p);
    DecimalRoundTrip(line);
  }

  /** fromRuntimeFrame: split the symbol, shorten the path, keep the line, and build
      the display text from exactly those fields. */
  function FromRuntimeFrame(raw: RawFrame): Frame
    requires Splittable(raw.functionName)
  {
    var (packageName, functionName) := SplitFunction(raw.functionName);
    var fileName := ToFileName(raw.file);
    Frame(packageName, functionName, fileName, raw.line,
          ToFormatted(packageName, functionName, fileName, raw.line))
  }

  /** The resolved frame takes its names from splitFunction and toFileName, copies
      the line, and shows a text consistent with those fields, from which the
      reported line can be read back. */
  lemma FromRuntimeFrameSpec(raw: RawFrame)
    requires Splittable(raw.functionName)
    ensures var f := FromRuntimeFrame(raw);
      && (f.packageName, f.functionName) == SplitFunction(raw.functionName)
      && f.fileName == ToFileName(raw.file)
      && f.line == raw.line
      && WellFormed(f)
      && ParseLine(f.String()) == Some(raw.line)
  {
  }

  /** The formatting example: package "pkg", function "Foo", file "bar.go", line 42. */
  lemma FormatExample()
    ensures ToFormatted("pkg", "Foo", "bar.go", 42) == "\tat pkg.Foo(bar.go:42)"
  {
  }

  /** A closure keeps its later dots in the function part. */
  lemma SplitClosureExample()
    ensures SplitFunction("a/b.F.f") == ("a/b", "F.f")
  {
    var name := "a/b.F.f";
    LastIndexOfAt(name, '/', 1);
    IndexOfAt(name[2..], '.', 1);
    assert name[..3] == "a/b";
    assert name[4..] == "F.f";
    StripReceiverNoiseSpec("F.f");
  }

  /** A pointer-receiver method loses its `(*` and `)` decoration. */
  lemma SplitPointerReceiverExample()
    ensures SplitFunction("a/b.(*T).m") == ("a/b", "T.m")
  {
    var name := "a/b.(*T).m";
    LastIndexOfAt(name, '/', 1);
    IndexOfAt(name[2..], '.', 1);
    assert name[..3] == "a/b";
    assert name[4..] == "(*T).m";
    StripPointerReceiver();
  }

  lemma StripPointerReceiver()
    ensures StripReceiverNoise("(*T).m") == "T.m"
  {
  }

  /** A resolved top-level function in a package without a path: every field of the
      frame, display text included. */
  lemma ResolveFunctionExample()
    ensures FromRuntimeFrame(RawFrame("p.T", "d/s.go", 7)) == Frame("p", "T", "s.go", 7, "\tat p.T(s.go:7)")
  {
    var name, file := "p.T", "d/s.go";
    SearchMissIffAbsent(name, '/');
    LastIndexOfSpec(name, '/');
    assert name[0..] == name;
    IndexOfAt(name, '.', 1);
    assert name[..1] == "p" && name[2..] == "T";
    StripReceiverNoiseSpec("T");
    LastIndexOfAt(file, '/', 1);
    assert file[2..] == "s.go";
  }
}
