/** `Process(path, sources, colorType, imgDitheringType, gsDitheringType)`:
    validation of up to three sources, naming of the outputs, the target
    folder, and the per-source packing into a colour image and one channel of
    the shared luminance image. */
module Packer {
  import opened Wrappers
  import opened Pixels
  import Kernels
  import opened Dithering
  import opened ColorTransform

  /** What the model needs of a `Texture2D` source: its name, size, whether
      its importer says it is readable, and `GetPixels()`. */
  datatype Source = Source(name: string, width: nat, height: nat, readable: bool, pixels: seq<Color>)

  datatype ProcessError = Unreadable(name: string) | SizeMismatch | NoSource | NoTargetPath

  /** The message `Process` returns for each error. */
  function Message(e: ProcessError): string
  {
    match e
    case Unreadable(name) => "Source texture " + name + " should be readable"
    case SizeMismatch => "All textures should have same size"
    case NoSource => "One or more textures should be defined"
    case NoTargetPath => "Target path not defined"
  }

  // ----- validation -----

  /** The sources among the first n that are present, in order. */
  function Present(sources: seq<Option<Source>>, n: nat): (p: seq<Source>)
    requires n <= |sources|
    ensures |p| <= n
  {
    if n == 0 then []
    else Present(sources, n - 1) + (if sources[n - 1].Some? then [sources[n - 1].value] else [])
  }

  function Names(p: seq<Source>): (ns: seq<string>)
    ensures |ns| == |p| && forall i :: 0 <= i < |p| ==> ns[i] == p[i].name
  {
    seq(|p|, i requires 0 <= i < |p| => p[i].name)
  }

  /** The names joined with "_". */
  function Join(names: seq<string>): string
  {
    if |names| == 0 then ""
    else if |names| == 1 then names[0]
    else Join(names[..|names| - 1]) + "_" + names[|names| - 1]
  }

  /** A source that stops validation: unreadable, or not of size width x height. */
  predicate Offends(s: Source, width: int, height: int)
  {
    !s.readable || s.width != width || s.height != height
  }

  /** The index of the first source of p that offends. */
  function FirstOffender(p: seq<Source>, width: int, height: int): (r: Option<nat>)
    ensures r.None? <==> forall i :: 0 <= i < |p| ==> !Offends(p[i], width, height)
    ensures r.Some? ==> r.value < |p| && Offends(p[r.value], width, height)
    ensures r.Some? ==> forall j :: 0 <= j < r.value ==> !Offends(p[j], width, height)
  {
    if |p| == 0 then None
    else if Offends(p[0], width, height) then Some(0)
    else match FirstOffender(p[1..], width, height)
      case None => None
      case Some(i) => Some(i + 1)
  }

  /** The outcome of the validation loop: the common size and `gsName`. */
  datatype Checked = Checked(width: nat, height: nat, gsName: string)

  /** The validation of `Process`, stated on the present sources: none present
      is NoSource; otherwise the first present source that is unreadable or of
      another size than the first present one decides, readability first;
      otherwise the size of the first and the names joined with "_". */
  function CheckSources(sources: seq<Option<Source>>): Result<Checked, ProcessError>
  {
    var p := Present(sources, |sources|);
    if |p| == 0 then Failure(NoSource)
    else
      match FirstOffender(p, p[0].width, p[0].height)
      case Some(i) => Failure(if !p[i].readable then Unreadable(p[i].name) else SizeMismatch)
      case None => Success(Checked(p[0].width, p[0].height, Join(Names(p))))
  }

  /** The present sources among the first n come first among those of the first m. */
  lemma {:induction false} PresentPrefix(sources: seq<Option<Source>>, n: nat, m: nat)
    requires n <= m <= |sources|
    ensures |Present(sources, n)| <= |Present(sources, m)|
    ensures Present(sources, m)[..|Present(sources, n)|] == Present(sources, n)
    decreases m
  {
    if n < m {
      PresentPrefix(sources, n, m - 1);
    }
  }

  /** A present source is found among the present sources just after those before it. */
  lemma PresentAt(sources: seq<Option<Source>>, n: nat)
    requires n < |sources| && sources[n].Some?
    ensures var i := |Present(sources, n)|;
      i < |Present(sources, |sources|)| && Present(sources, |sources|)[i] == sources[n].value
  {
    PresentPrefix(sources, n + 1, |sources|);
    var i := |Present(sources, n)|;
    assert Present(sources, n + 1)[i] == sources[n].value;
  }

  /** An offender of a prefix is the first offender of the whole sequence. */
  lemma FirstOffenderPrefix(a: seq<Source>, p: seq<Source>, width: int, height: int)
    requires |a| <= |p| && p[..|a|] == a && FirstOffender(a, width, height).Some?
    ensures FirstOffender(p, width, height) == FirstOffender(a, width, height)
  {
    var i := FirstOffender(a, width, height).value;
    assert forall j :: 0 <= j <= i ==> p[j] == a[j];
  }

  /** One more present source extends the joined name by "_" and its name. */
  lemma JoinStep(p: seq<Source>, s: Source)
    ensures Join(Names(p + [s])) == if |p| == 0 then s.name else Join(Names(p)) + "_" + s.name
  {
    var ns := Names(p + [s]);
    assert ns[..|ns| - 1] == Names(p);
  }

  /** The state of the validation loop after the first n sources: width -1
      and a null name while none is present; otherwise the size of the first
      present one, no offender yet, and the names so far joined with "_". */
  predicate Scanned(sources: seq<Option<Source>>, n: nat, width: int, height: int, gsName: Option<string>)
    requires n <= |sources|
  {
    var p := Present(sources, n);
    if |p| == 0 then width == -1 && gsName.None?
    else
      width == p[0].width && height == p[0].height &&
      FirstOffender(p, p[0].width, p[0].height).None? && gsName == Some(Join(Names(p)))
  }

  /** An absent source changes nothing. */
  lemma ScannedSkip(sources: seq<Option<Source>>, n: nat, width: int, height: int, gsName: Option<string>)
    requires n < |sources| && sources[n].None? && Scanned(sources, n, width, height, gsName)
    ensures Scanned(sources, n + 1, width, height, gsName)
  {
    var before := Present(sources, n);
    assert before + [] == before;
    assert Present(sources, n + 1) == before;
  }

  /** A present source that passes both checks is appended to the name. */
  lemma ScannedStep(sources: seq<Option<Source>>, n: nat, width: int, height: int, gsName: Option<string>,
                    width': int, height': int)
    requires n < |sources| && sources[n].Some? && Scanned(sources, n, width, height, gsName)
    requires width' == (if width == -1 then sources[n].value.width else width)
    requires height' == (if width == -1 then sources[n].value.height else height)
    requires !Offends(sources[n].value, width', height')
    ensures Scanned(sources, n + 1, width', height',
                    Some((if gsName.Some? then gsName.value + "_" else "") + sources[n].value.name))
  {
    var source := sources[n].value;
    var before := Present(sources, n);
    assert Present(sources, n + 1) == before + [source];
    JoinStep(before, source);
    if |before| == 0 {
      assert "" + source.name == source.name;
      NoOffenderAppend(before, source, width', height');
    } else {
      NoOffenderAppend(before, source, width', height');
    }
  }

  /** A source of the right size, appended after sources with no offender,
      leaves the first one first and adds no offender. */
  lemma NoOffenderAppend(p: seq<Source>, s: Source, width: int, height: int)
    requires FirstOffender(p, width, height).None? && !Offends(s, width, height)
    ensures (p + [s])[0] == if |p| == 0 then s else p[0]
    ensures FirstOffender(p + [s], width, height).None?
  {
    var q := p + [s];
    assert forall j :: 0 <= j < |p| ==> q[j] == p[j];
  }

  /** The validation loop over `sources` (the `foreach` of `Process`),
      with width -1 and a null `gsName` until a source is present. */
  method Validate(sources: seq<Option<Source>>) returns (res: Result<Checked, ProcessError>)
    ensures res == CheckSources(sources)
  {
    var width: int := -1;
    var height: int := -1;
    var gsName: Option<string> := None;
    var n := 0;
    while n < |sources|
      invariant 0 <= n <= |sources|
      invariant Scanned(sources, n, width, height, gsName)
    {
      if sources[n].Some? {
        var source := sources[n].value;
        ghost var width0, height0, name0 := width, height, gsName;
        if !source.readable {
          FailsAt(sources, n, width, height, gsName);
          return Failure(Unreadable(source.name));
        }
        if width == -1 {
          width := source.width;
          height := source.height;
        }
        if source.width != width || source.height != height {
          FailsAt(sources, n, width0, height0, name0);
          return Failure(SizeMismatch);
        }
        if gsName.Some? {
          gsName := Some(gsName.value + "_");
        }
        // appending to a null string starts from the empty one
        gsName := Some((if gsName.Some? then gsName.value else "") + source.name);
        ScannedStep(sources, n, width0, height0, name0, width, height);
      } else {
        ScannedSkip(sources, n, width, height, gsName);
      }
      n := n + 1;
    }
    if width == -1 {
      return Failure(NoSource);
    }
    return Success(Checked(width, height, gsName.value));
  }

  /** If the present source at index n offends against the first present source
      (itself, when it is the first) and none before it does, it decides the
      validation. */
  lemma FailsAt(sources: seq<Option<Source>>, n: nat, width: int, height: int, gsName: Option<string>)
    requires n < |sources| && sources[n].Some? && Scanned(sources, n, width, height, gsName)
    requires var s := sources[n].value;
      Offends(s, if width == -1 then s.width else width, if width == -1 then s.height else height)
    ensures var s := sources[n].value;
      CheckSources(sources) == Failure(if !s.readable then Unreadable(s.name) else SizeMismatch)
  {
    var s, before := sources[n].value, Present(sources, n);
    var after := Present(sources, n + 1);
    assert after == before + [s];
    var first := if |before| == 0 then s else before[0];
    OffenderAppend(before, s, first.width, first.height);
    PresentPrefix(sources, n + 1, |sources|);
    var p := Present(sources, |sources|);
    assert p[0] == after[0];
    FirstOffenderPrefix(after, p, first.width, first.height);
  }

  /** An offending source, appended after sources with no offender, is the
      first offender. */
  lemma OffenderAppend(p: seq<Source>, s: Source, width: int, height: int)
    requires FirstOffender(p, width, height).None? && Offends(s, width, height)
    ensures (p + [s])[0] == if |p| == 0 then s else p[0]
    ensures (p + [s])[|p|] == s
    ensures FirstOffender(p + [s], width, height) == Some(|p|)
  {
    var q := p + [s];
    assert forall j :: 0 <= j < |p| ==> q[j] == p[j];
  }

  // ----- the target folder -----

  /** The folder `Process` writes to: `path`, or the folder the user picks
      when it is null. */
  function Target(path: Option<string>, picked: string): string
  {
    if path.Some? then path.value else picked
  }

  /** The target folder after the checks: an empty one is an error; one that
      starts with the data-path string (`Application.dataPath`) is made
      relative to the project by putting "Assets" in place of that prefix. */
  function ResolveTarget(path: Option<string>, picked: string, dataPath: string): (r: Result<string, ProcessError>)
    ensures r.Failure? ==> r.error == NoTargetPath
    ensures r.Success? ==> r.value != "" && (r.value == Target(path, picked) || "Assets" <= r.value)
  {
    var target := Target(path, picked);
    if target == "" then Failure(NoTargetPath)
    else if dataPath <= target then Success("Assets" + target[|dataPath|..])
    else Success(target)
  }

  /** The folder is refused exactly when it is empty, with the target error. */
  lemma TargetRefused(path: Option<string>, picked: string, dataPath: string)
    ensures ResolveTarget(path, picked, dataPath).Failure? <==> Target(path, picked) == ""
    ensures ResolveTarget(path, picked, dataPath).Failure? ==> ResolveTarget(path, picked, dataPath).error == NoTargetPath
  {
  }

  /** The rewrite keeps all of the path: putting the data path back in place of
      "Assets" gives the absolute path again. */
  lemma RelativePathRoundTrip(path: Option<string>, picked: string, dataPath: string)
    requires Target(path, picked) != "" && dataPath <= Target(path, picked)
    ensures ResolveTarget(path, picked, dataPath).Success?
    ensures var r := ResolveTarget(path, picked, dataPath).value;
      "Assets" <= r && dataPath + r[|"Assets"|..] == Target(path, picked)
  {
    var target := Target(path, picked);
    var r := ResolveTarget(path, picked, dataPath).value;
    assert r[|"Assets"|..] == target[|dataPath|..];
    assert dataPath + target[|dataPath|..] == target;
  }

  /** A folder that does not start with the data-path string is used as it is. */
  lemma OutsidePathKept(path: Option<string>, picked: string, dataPath: string)
    requires Target(path, picked) != "" && !(dataPath <= Target(path, picked))
    ensures ResolveTarget(path, picked, dataPath) == Success(Target(path, picked))
  {
  }

  /** The test is on the string, not on folders: a sibling folder whose name
      starts with the name of the data folder is rewritten too, as if it were
      inside it. */
  lemma SiblingFolderRewritten()
    ensures ResolveTarget(Some("/p/AssetsOld"), "", "/p/Assets") == Success("AssetsOld")
  {
    var target, dataPath := "/p/AssetsOld", "/p/Assets";
    assert Target(Some(target), "") == target;
    assert target[..|dataPath|] == dataPath;
    assert dataPath <= target;
    assert target[|dataPath|..] == "Old";
    assert "Assets" + "Old" == "AssetsOld";
  }

  /** The folder panel is consulted only when no path is given. */
  lemma PathOverridesPanel(path: string, picked1: string, picked2: string, dataPath: string)
    ensures ResolveTarget(Some(path), picked1, dataPath) == ResolveTarget(Some(path), picked2, dataPath)
  {
  }

  // ----- packing -----

  /** A buffer with every pixel replaced by its packed colour. */
  function PackAll(t: PackedColorType, s: seq<Color>): (r: seq<Color>)
    ensures |r| == |s|
    ensures forall i :: 0 <= i < |s| ==> r[i].a == 1.0
  {
    seq(|s|, i requires 0 <= i < |s| => Packed(t, s[i]))
  }

  /** The luminance buffer g with component `channel` of each pixel set to the
      luminance of the matching pixel of s. */
  function WithLumas(g: seq<Color>, channel: nat, t: PackedColorType, s: seq<Color>): (r: seq<Color>)
    requires |g| == |s| && channel < 3
    ensures |r| == |g|
    ensures forall i :: 0 <= i < |g| ==> Channel(r[i], channel) == Luminance(t, s[i])
    ensures forall i, m :: 0 <= i < |g| && 0 <= m < 4 && m != channel ==> Channel(r[i], m) == Channel(g[i], m)
  {
    seq(|g|, i requires 0 <= i < |g| => SetChannel(g[i], channel, Luminance(t, s[i])))
  }

  /** The inner loop of `Process` for one source: each pixel of the dithered
      colour buffer becomes its packed colour, and its luminance goes into
      component `channel` of the same pixel of the luminance buffer. */
  method PackChannel(colData: array<Color>, gsData: array<Color>, channel: nat, colorType: PackedColorType)
    requires colData != gsData && colData.Length == gsData.Length && channel < 3
    modifies colData, gsData
    ensures colData[..] == PackAll(colorType, old(colData[..]))
    ensures gsData[..] == WithLumas(old(gsData[..]), channel, colorType, old(colData[..]))
  {
    var i := 0;
    var iMax := colData.Length;
    while i < iMax
      invariant 0 <= i <= iMax
      invariant forall j :: 0 <= j < i ==> colData[j] == Packed(colorType, old(colData[j]))
      invariant forall j :: 0 <= j < i ==>
        gsData[j] == SetChannel(old(gsData[j]), channel, Luminance(colorType, old(colData[j])))
      invariant forall j :: i <= j < iMax ==> colData[j] == old(colData[j]) && gsData[j] == old(gsData[j])
    {
      var c := colData[i];
      var gs := Luminance(colorType, c);
      colData[i] := Packed(colorType, c);
      gsData[i] := SetChannel(gsData[i], channel, gs);
      i := i + 1;
    }
  }

  // ----- the whole of Process -----

  /** A PNG file `Process` writes: the folder, the file name and the pixels. */
  datatype Written = Written(folder: string, fileName: string, pixels: seq<Color>)

  /** `GetPixels()` returns width x height pixels. */
  predicate PixelsMatch(sources: seq<Option<Source>>)
  {
    forall i :: 0 <= i < |sources| && sources[i].Some? ==>
      |sources[i].value.pixels| == sources[i].value.width * sources[i].value.height
  }

  /** After validation every present source has the common size. */
  lemma PresentHasSize(sources: seq<Option<Source>>, n: nat)
    requires CheckSources(sources).Success? && n < |sources| && sources[n].Some?
    ensures sources[n].value.width == CheckSources(sources).value.width
    ensures sources[n].value.height == CheckSources(sources).value.height
  {
    PresentAt(sources, n);
    var p := Present(sources, |sources|);
    var i := |Present(sources, n)|;
    assert !Offends(p[i], p[0].width, p[0].height);
  }

  /** The luminance buffer once the sources of the channels below `channel`
      have been packed: it starts all zero (a new `Color[]`), and a present
      source at index k fills component k with the luminance of its dithered
      pixels. */
  function LumaBuffer(sources: seq<Option<Source>>, width: nat, height: nat, colorType: PackedColorType,
                      imgDitheringType: Kernels.DitheringType, channel: nat): (r: seq<Color>)
    requires channel <= 3 && channel <= |sources|
    requires forall i :: 0 <= i < channel && sources[i].Some? ==> |sources[i].value.pixels| == width * height
    ensures |r| == width * height
  {
    if channel == 0 then seq(width * height, _ => Black)
    else
      var g := LumaBuffer(sources, width, height, colorType, imgDitheringType, channel - 1);
      match sources[channel - 1]
      case None => g
      case Some(s) => WithLumas(g, channel - 1, colorType, Dither(s.pixels, width, height, imgDitheringType))
  }

  /** The colour files for the present sources among the first `channel`, in order. */
  function ColourFiles(folder: string, sources: seq<Option<Source>>, width: nat, height: nat,
                       colorType: PackedColorType, imgDitheringType: Kernels.DitheringType, channel: nat): seq<Written>
    requires channel <= |sources|
    requires forall i :: 0 <= i < channel && sources[i].Some? ==> |sources[i].value.pixels| == width * height
  {
    if channel == 0 then []
    else
      var files := ColourFiles(folder, sources, width, height, colorType, imgDitheringType, channel - 1);
      match sources[channel - 1]
      case None => files
      case Some(s) =>
        files + [Written(folder, s.name + ".col.png", PackAll(colorType, Dither(s.pixels, width, height, imgDitheringType)))]
  }

  /** What `Process` writes once the checks have passed: one colour file per
      present source of the three channels, in channel order, then the
      dithered luminance file named after all present sources. */
  function Outputs(folder: string, sources: seq<Option<Source>>, checked: Checked, colorType: PackedColorType,
                   imgDitheringType: Kernels.DitheringType, gsDitheringType: Kernels.DitheringType): (r: seq<Written>)
    requires |sources| >= 3
    requires forall i :: 0 <= i < 3 && sources[i].Some? ==> |sources[i].value.pixels| == checked.width * checked.height
    ensures |r| == |Present(sources, 3)| + 1
    ensures forall i :: 0 <= i < |r| ==> r[i].folder == folder
    ensures r[|r| - 1].fileName == checked.gsName + ".gs.png"
  {
    var w, h := checked.width, checked.height;
    ColourFilesMatchSources(folder, sources, w, h, colorType, imgDitheringType, 3);
    var gs := LumaBuffer(sources, w, h, colorType, imgDitheringType, 3);
    ColourFiles(folder, sources, w, h, colorType, imgDitheringType, 3) +
    [Written(folder, checked.gsName + ".gs.png", Dither(gs, w, h, gsDitheringType))]
  }

  /** What `Process` does, as a function: the first failing check gives its
      error, and otherwise the files it writes. */
  function Expected(path: Option<string>, picked: string, dataPath: string, sources: seq<Option<Source>>,
                    colorType: PackedColorType, imgDitheringType: Kernels.DitheringType,
                    gsDitheringType: Kernels.DitheringType): Result<seq<Written>, ProcessError>
    requires |sources| >= 3 && PixelsMatch(sources)
  {
    match CheckSources(sources)
    case Failure(e) => Failure(e)
    case Success(checked) =>
      match ResolveTarget(path, picked, dataPath)
      case Failure(e) => Failure(e)
      case Success(folder) =>
        SizesAgree(sources, 3);
        Success(Outputs(folder, sources, checked, colorType, imgDitheringType, gsDitheringType))
  }

  /** After validation the first n sources have the common number of pixels. */
  lemma SizesAgree(sources: seq<Option<Source>>, n: nat)
    requires CheckSources(sources).Success? && PixelsMatch(sources) && n <= |sources|
    ensures forall i :: 0 <= i < n && sources[i].Some? ==>
      |sources[i].value.pixels| == CheckSources(sources).value.width * CheckSources(sources).value.height
  {
    forall i | 0 <= i < n && sources[i].Some?
      ensures |sources[i].value.pixels| == CheckSources(sources).value.width * CheckSources(sources).value.height
    {
      PresentHasSize(sources, i);
    }
  }

  /** `Process`: validate, resolve the folder, then write the files. */
  method Process(path: Option<string>, picked: string, dataPath: string, sources: seq<Option<Source>>,
                 colorType: PackedColorType, imgDitheringType: Kernels.DitheringType,
                 gsDitheringType: Kernels.DitheringType) returns (res: Result<seq<Written>, ProcessError>)
    requires |sources| >= 3 && PixelsMatch(sources)
    ensures res == Expected(path, picked, dataPath, sources, colorType, imgDitheringType, gsDitheringType)
  {
    var checked := Validate(sources);
    if checked.Failure? {
      return Failure(checked.error);
    }
    var target := ResolveTarget(path, picked, dataPath);
    if target.Failure? {
      return Failure(target.error);
    }
    SizesAgree(sources, 3);
    var files := WriteOutputs(target.value, sources, checked.value, colorType, imgDitheringType, gsDitheringType);
    return Success(files);
  }

  /** The second half of `Process`: a new, all-zero luminance buffer; the
      channel loop; then the luminance buffer dithered and written. */
  method WriteOutputs(folder: string, sources: seq<Option<Source>>, checked: Checked, colorType: PackedColorType,
                      imgDitheringType: Kernels.DitheringType, gsDitheringType: Kernels.DitheringType)
    returns (files: seq<Written>)
    requires |sources| >= 3
    requires forall i :: 0 <= i < 3 && sources[i].Some? ==> |sources[i].value.pixels| == checked.width * checked.height
    ensures files == Outputs(folder, sources, checked, colorType, imgDitheringType, gsDitheringType)
  {
    var width, height := checked.width, checked.height;
    var gsData := new Color[width * height](_ => Black);
    assert gsData[..] == LumaBuffer(sources, width, height, colorType, imgDitheringType, 0);
    files := PackSources(gsData, folder, sources, width, height, colorType, imgDitheringType);
    ProcessDithering(gsData, width, height, gsDitheringType);
    files := files + [Written(folder, checked.gsName + ".gs.png", gsData[..])];
  }

  /** The channel loop of `Process`: the colour files of the three channels,
      in order, and the luminance buffer they fill. */
  method PackSources(gsData: array<Color>, folder: string, sources: seq<Option<Source>>, width: nat, height: nat,
                     colorType: PackedColorType, imgDitheringType: Kernels.DitheringType) returns (files: seq<Written>)
    requires |sources| >= 3 && gsData.Length == width * height
    requires forall i :: 0 <= i < 3 && sources[i].Some? ==> |sources[i].value.pixels| == width * height
    requires gsData[..] == LumaBuffer(sources, width, height, colorType, imgDitheringType, 0)
    modifies gsData
    ensures gsData[..] == LumaBuffer(sources, width, height, colorType, imgDitheringType, 3)
    ensures files == ColourFiles(folder, sources, width, height, colorType, imgDitheringType, 3)
  {
    files := [];
    for channel := 0 to 3
      invariant gsData[..] == LumaBuffer(sources, width, height, colorType, imgDitheringType, channel)
      invariant files == ColourFiles(folder, sources, width, height, colorType, imgDitheringType, channel)
    {
      if sources[channel].Some? {
        var file := PackSource(gsData, folder, sources[channel].value, channel, width, height, colorType, imgDitheringType);
        files := files + [file];
      }
    }
  }

  /** One present source: a copy of its pixels (`GetPixels()`) is dithered and
      packed, and its luminance fills component `channel` of the luminance buffer. */
  method PackSource(gsData: array<Color>, folder: string, source: Source, channel: nat, width: nat, height: nat,
                    colorType: PackedColorType, imgDitheringType: Kernels.DitheringType) returns (file: Written)
    requires channel < 3 && gsData.Length == width * height && |source.pixels| == width * height
    modifies gsData
    ensures var d := Dither(source.pixels, width, height, imgDitheringType);
      gsData[..] == WithLumas(old(gsData[..]), channel, colorType, d) &&
      file == Written(folder, source.name + ".col.png", PackAll(colorType, d))
  {
    var colData := new Color[|source.pixels|](i requires 0 <= i < |source.pixels| => source.pixels[i]);
    assert colData[..] == source.pixels;
    ProcessDithering(colData, width, height, imgDitheringType);
    PackChannel(colData, gsData, channel, colorType);
    file := Written(folder, source.name + ".col.png", colData[..]);
  }

  // ----- properties -----

  /** Every error has its own message: the string `Process` returns tells the
      error, and the name of the unreadable source, apart. */
  lemma MessageInjective(e1: ProcessError, e2: ProcessError)
    requires Message(e1) == Message(e2)
    ensures e1 == e2
  {
    var m := Message(e1);
    assert m[0] == Message(e2)[0];
    if e1.Unreadable? && e2.Unreadable? {
      var prefix, suffix := "Source texture ", " should be readable";
      assert e1.name == m[|prefix|..|m| - |suffix|];
      assert e2.name == Message(e2)[|prefix|..|Message(e2)| - |suffix|];
    }
  }

  /** Validation passes exactly when some source is present and every present
      source is readable and of the size of the first present one. */
  lemma CheckSourcesOk(sources: seq<Option<Source>>)
    ensures CheckSources(sources).Success? <==>
      exists n :: 0 <= n < |sources| && sources[n].Some? && AllFit(sources, n)
  {
    if CheckSources(sources).Success? {
      var n := FirstPresent(sources, |sources|);
      forall i | 0 <= i < |sources| && sources[i].Some?
        ensures !Offends(sources[i].value, sources[n].value.width, sources[n].value.height)
      {
        PresentAt(sources, i);
      }
      assert AllFit(sources, n);
    }
    if exists n :: 0 <= n < |sources| && sources[n].Some? && AllFit(sources, n) {
      var n :| 0 <= n < |sources| && sources[n].Some? && AllFit(sources, n);
      Fits(sources, n);
    }
  }

  /** No source before n is present, and every present source is readable and
      of the size of the one at n. */
  predicate AllFit(sources: seq<Option<Source>>, n: nat)
    requires n < |sources| && sources[n].Some?
  {
    (forall i :: 0 <= i < n ==> sources[i].None?) &&
    forall i :: 0 <= i < |sources| && sources[i].Some? ==>
      !Offends(sources[i].value, sources[n].value.width, sources[n].value.height)
  }

  lemma Fits(sources: seq<Option<Source>>, n: nat)
    requires n < |sources| && sources[n].Some? && AllFit(sources, n)
    ensures CheckSources(sources).Success?
  {
    var p := Present(sources, |sources|);
    PresentAt(sources, n);
    NonePresent(sources, n);
    assert p[0] == sources[n].value;
    forall j | 0 <= j < |p|
      ensures !Offends(p[j], p[0].width, p[0].height)
    {
      var k := PresentIndex(sources, |sources|, j);
    }
  }

  /** The index of the first present source, when the first m hold one. */
  function FirstPresent(sources: seq<Option<Source>>, m: nat): (n: nat)
    requires m <= |sources| && |Present(sources, m)| > 0
    ensures n < m && sources[n].Some? && Present(sources, m)[0] == sources[n].value
    ensures forall i :: 0 <= i < n ==> sources[i].None?
  {
    if |Present(sources, m - 1)| == 0 then
      PresentEmpty(sources, m - 1);
      m - 1
    else
      var n := FirstPresent(sources, m - 1);
      PresentPrefix(sources, m - 1, m);
      n
  }

  /** No present source before n means none is counted before it. */
  lemma {:induction false} NonePresent(sources: seq<Option<Source>>, n: nat)
    requires n <= |sources| && forall i :: 0 <= i < n ==> sources[i].None?
    ensures Present(sources, n) == []
  {
    if n > 0 {
      NonePresent(sources, n - 1);
    }
  }

  /** None counted before n means no present source before n. */
  lemma {:induction false} PresentEmpty(sources: seq<Option<Source>>, n: nat)
    requires n <= |sources| && Present(sources, n) == []
    ensures forall i :: 0 <= i < n ==> sources[i].None?
  {
    if n > 0 {
      PresentEmpty(sources, n - 1);
    }
  }

  /** Where the j-th present source among the first m sits in `sources`. */
  function PresentIndex(sources: seq<Option<Source>>, m: nat, j: nat): (k: nat)
    requires m <= |sources| && j < |Present(sources, m)|
    ensures k < m && sources[k] == Some(Present(sources, m)[j])
  {
    if j < |Present(sources, m - 1)| then
      var k := PresentIndex(sources, m - 1, j);
      PresentPrefix(sources, m - 1, m);
      k
    else
      m - 1
  }

  /** Component k of pixel i of the luminance buffer after the first `channel`
      sources: the luminance of pixel i of the dithered source k when k is
      among them and present, and zero otherwise; alpha stays zero. */
  lemma {:induction false} LumaBufferLayout(sources: seq<Option<Source>>, width: nat, height: nat,
                                            colorType: PackedColorType, imgDitheringType: Kernels.DitheringType,
                                            channel: nat, i: nat, k: nat)
    requires channel <= 3 && channel <= |sources|
    requires forall j :: 0 <= j < channel && sources[j].Some? ==> |sources[j].value.pixels| == width * height
    requires i < width * height && k < 4
    ensures Channel(LumaBuffer(sources, width, height, colorType, imgDitheringType, channel)[i], k) ==
      if k < channel && sources[k].Some?
      then Luminance(colorType, Dither(sources[k].value.pixels, width, height, imgDitheringType)[i])
      else 0.0
    decreases channel
  {
    if channel > 0 {
      LumaBufferLayout(sources, width, height, colorType, imgDitheringType, channel - 1, i, k);
    }
  }

  /** A channel without a source stays black in the luminance file, whatever
      its ditherer does. */
  lemma AbsentChannelStaysBlack(folder: string, sources: seq<Option<Source>>, checked: Checked,
                                colorType: PackedColorType, imgDitheringType: Kernels.DitheringType,
                                gsDitheringType: Kernels.DitheringType, k: nat)
    requires |sources| >= 3 && k < 3 && sources[k].None?
    requires forall i :: 0 <= i < 3 && sources[i].Some? ==> |sources[i].value.pixels| == checked.width * checked.height
    ensures var files := Outputs(folder, sources, checked, colorType, imgDitheringType, gsDitheringType);
      ChannelZero(files[|files| - 1].pixels, k)
  {
    var w, h := checked.width, checked.height;
    var gs := LumaBuffer(sources, w, h, colorType, imgDitheringType, 3);
    forall i | 0 <= i < |gs|
      ensures Channel(gs[i], k) == 0.0
    {
      LumaBufferLayout(sources, w, h, colorType, imgDitheringType, 3, i, k);
    }
    DitherKeepsZero(gs, w, h, gsDitheringType, k);
  }

  /** The colour files are one per present source among the first `channel`,
      in order, each named after its source and holding its dithered pixels
      packed. */
  lemma {:induction false} ColourFilesMatchSources(folder: string, sources: seq<Option<Source>>, width: nat, height: nat,
                                                   colorType: PackedColorType, imgDitheringType: Kernels.DitheringType,
                                                   channel: nat)
    requires channel <= |sources|
    requires forall i :: 0 <= i < channel && sources[i].Some? ==> |sources[i].value.pixels| == width * height
    ensures var files, p := ColourFiles(folder, sources, width, height, colorType, imgDitheringType, channel),
                            Present(sources, channel);
      |files| == |p| &&
      forall j :: 0 <= j < |p| ==> (|p[j].pixels| == width * height &&
        files[j] == Written(folder, p[j].name + ".col.png",
                            PackAll(colorType, Dither(p[j].pixels, width, height, imgDitheringType))))
  {
    if channel > 0 {
      ColourFilesMatchSources(folder, sources, width, height, colorType, imgDitheringType, channel - 1);
      var p := Present(sources, channel);
      forall j | 0 <= j < |p|
        ensures |p[j].pixels| == width * height
      {
        var k := PresentIndex(sources, channel, j);
      }
    }
  }

  /** One readable grey source of level v in the red slot, no dithering: the
      colour file is flat chroma 0.5 (the YCbCr third channel nearly so) with
      alpha 1, and the luminance file has v in red and zero elsewhere. */
  lemma GreyImage(path: Option<string>, picked: string, dataPath: string, src: Source, v: real, a: real,
                  colorType: PackedColorType)
    requires src.readable && |src.pixels| == src.width * src.height
    requires forall i :: 0 <= i < |src.pixels| ==> src.pixels[i] == Color(v, v, v, a)
    requires ResolveTarget(path, picked, dataPath).Success?
    ensures var n, folder := |src.pixels|, ResolveTarget(path, picked, dataPath).value;
      var third := if colorType.YCoCg? then 0.5 else 0.5 + 0.000000016 * v;
      Expected(path, picked, dataPath, [Some(src), None, None], colorType,
               Kernels.DitheringType.None, Kernels.DitheringType.None) ==
      Success([Written(folder, src.name + ".col.png", seq(n, _ => Color(0.5, 0.5, third, 1.0))),
               Written(folder, src.name + ".gs.png", seq(n, _ => Color(v, 0.0, 0.0, 0.0)))])
  {
    var sources := [Some(src), None, None];
    var n, folder := |src.pixels|, ResolveTarget(path, picked, dataPath).value;
    var third := if colorType.YCoCg? then 0.5 else 0.5 + 0.000000016 * v;
    assert Present(sources, 1) == [] + [src] == [src];
    assert Present(sources, 3) == [src];
    assert FirstOffender([src], src.width, src.height).None?;
    assert Join(Names([src])) == src.name;
    var checked := Checked(src.width, src.height, src.name);
    assert CheckSources(sources) == Success(checked);
    var none := Kernels.DitheringType.None;
    var packed := PackAll(colorType, src.pixels);
    forall i | 0 <= i < n
      ensures packed[i] == Color(0.5, 0.5, third, 1.0)
    {
      GreyPixel(colorType, v, a);
    }
    assert packed == seq(n, _ => Color(0.5, 0.5, third, 1.0));
    assert ColourFiles(folder, sources, src.width, src.height, colorType, none, 1) ==
      [] + [Written(folder, src.name + ".col.png", packed)];
    assert ColourFiles(folder, sources, src.width, src.height, colorType, none, 3) ==
      [Written(folder, src.name + ".col.png", packed)];
    var gs := LumaBuffer(sources, src.width, src.height, colorType, none, 3);
    forall i | 0 <= i < n
      ensures gs[i] == Color(v, 0.0, 0.0, 0.0)
    {
      GreyPixel(colorType, v, a);
      LumaBufferLayout(sources, src.width, src.height, colorType, none, 3, i, 0);
      LumaBufferLayout(sources, src.width, src.height, colorType, none, 3, i, 1);
      LumaBufferLayout(sources, src.width, src.height, colorType, none, 3, i, 2);
      LumaBufferLayout(sources, src.width, src.height, colorType, none, 3, i, 3);
    }
    assert gs == seq(n, _ => Color(v, 0.0, 0.0, 0.0));
    assert Dither(gs, src.width, src.height, none) == gs;
    assert Outputs(folder, sources, checked, colorType, none, none) ==
      [Written(folder, src.name + ".col.png", packed), Written(folder, src.name + ".gs.png", gs)];
  }

  /** The name of the luminance file joins the present sources in slot order. */
  lemma NamesInSlotOrder(a: Source, c: Source)
    requires a.readable && c.readable && a.width == c.width && a.height == c.height
    ensures CheckSources([Some(a), None, Some(c)]) == Success(Checked(a.width, a.height, a.name + "_" + c.name))
  {
    var sources := [Some(a), None, Some(c)];
    assert Present(sources, 1) == [] + [a] == [a];
    assert Present(sources, 3) == [a] + [c] == [a, c];
    assert Names([a, c]) == [a.name, c.name];
    assert [a.name, c.name][..1] == [a.name];
    assert Join([a.name, c.name]) == a.name + "_" + c.name;
    assert FirstOffender([a, c], a.width, a.height).None?;
  }

  /** Readability is checked before size: an unreadable source is reported
      even when it also has another size. */
  lemma UnreadableBeforeSize(a: Source, b: Source)
    requires a.readable && !b.readable && (a.width != b.width || a.height != b.height)
    ensures CheckSources([Some(a), Some(b), None]) == Failure(Unreadable(b.name))
  {
    var sources := [Some(a), Some(b), None];
    assert Present(sources, 1) == [] + [a] == [a];
    assert Present(sources, 2) == [a] + [b] == [a, b];
    assert Present(sources, 3) == [a, b];
    assert FirstOffender([a, b], a.width, a.height) == Some(1);
  }

  /** Two readable sources of 4 x 4 and 8 x 8 pixels fail with the size error. */
  lemma SizeMismatchExample(a: Source, b: Source)
    requires a.readable && b.readable && a.width == 4 && a.height == 4 && b.width == 8 && b.height == 8
    ensures CheckSources([Some(a), Some(b), None]) == Failure(SizeMismatch)
  {
    var sources := [Some(a), Some(b), None];
    assert Present(sources, 1) == [] + [a] == [a];
    assert Present(sources, 2) == [a] + [b] == [a, b];
    assert Present(sources, 3) == [a, b];
    assert FirstOffender([a, b], 4, 4) == Some(1);
  }
}
