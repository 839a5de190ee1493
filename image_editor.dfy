/** The layer stack of the mini image editor in Tools/convert_img.py
    without Pillow and the canvas: layers with integer positions and sizes,
    the selection that moves a layer to the top, the topmost hit test of a
    click, dragging, the crop box, the save format chosen by extension and
    the parsing of dropped paths. */
module ImageEditor {
  import opened Wrappers
  import opened PyStr
  import PosixPath

  // ---------------------------------------------------------------------
  // Layers
  // ---------------------------------------------------------------------

  /** A layer: its origin on the canvas and the size of its displayed
      image. `drawn` stands for the canvas item `id` being set. */
  class Layer {
    var x: int
    var y: int
    var width: nat
    var height: nat
    var scale: real
    var drawn: bool
    const path: string

    constructor(width: nat, height: nat, x: int, y: int, path: string)
      ensures this.width == width && this.height == height && this.x == x && this.y == y
      ensures this.path == path && scale == 1.0 && !drawn
    {
      this.width, this.height := width, height;
      this.x, this.y := x, y;
      this.path := path;
      scale := 1.0;
      drawn := false;
    }

    /** `contains`: the inclusive rectangle test, false before the layer
        is drawn. */
    predicate Contains(px: int, py: int)
      reads this
    {
      drawn && x <= px <= x + width && y <= py <= y + height
    }

    /** `update_canvas` as far as the layer's state goes: it now has a
        canvas item. */
    method UpdateCanvas()
      modifies this
      ensures drawn
      ensures x == old(x) && y == old(y) && width == old(width) && height == old(height) && scale == old(scale)
    {
      drawn := true;
    }
  }

  /** The sequence without the first occurrence of `v` (`list.remove`). */
  function RemoveFirst<T(==)>(s: seq<T>, v: T): (r: seq<T>)
    ensures v in s ==> |r| == |s| - 1
    ensures v !in s ==> r == s
  {
    if s == [] then []
    else if s[0] == v then s[1..]
    else [s[0]] + RemoveFirst(s[1..], v)
  }

  /** The index of the first occurrence of `v`. */
  function IndexOf<T(==)>(s: seq<T>, v: T): (k: nat)
    requires v in s
    ensures k < |s| && s[k] == v && forall j :: 0 <= j < k ==> s[j] != v
  {
    if s[0] == v then 0 else 1 + IndexOf(s[1..], v)
  }

  /** `remove` then `append`. */
  function MoveToTop<T(==)>(s: seq<T>, v: T): seq<T>
  {
    RemoveFirst(s, v) + [v]
  }

  /** `remove` cuts out exactly the first occurrence: the others keep
      their order. */
  lemma {:induction false} RemoveFirstCuts<T>(s: seq<T>, v: T)
    requires v in s
    ensures RemoveFirst(s, v) == s[..IndexOf(s, v)] + s[IndexOf(s, v) + 1..]
  {
    if s[0] != v {
      var t := s[1..];
      var j := IndexOf(t, v);
      assert IndexOf(s, v) == j + 1;
      RemoveFirstCuts(t, v);
      assert s == [s[0]] + t;
      CutAfterHead(s[0], t, j);
    } else {
      assert s[..0] + s[1..] == s[1..];
    }
  }

  /** Cutting index `j` from the tail is cutting `j + 1` from the whole. */
  lemma CutAfterHead<T>(x: T, t: seq<T>, j: nat)
    requires j < |t|
    ensures [x] + (t[..j] + t[j + 1..]) == ([x] + t)[..j + 1] + ([x] + t)[j + 2..]
  {
    assert ([x] + t)[..j + 1] == [x] + t[..j];
    assert ([x] + t)[j + 2..] == t[j + 1..];
  }

  /** `remove` takes away one copy of the element. */
  lemma {:induction false} RemoveFirstMultiset<T>(s: seq<T>, v: T)
    requires v in s
    ensures multiset(RemoveFirst(s, v)) + multiset{v} == multiset(s)
  {
    if s[0] != v {
      RemoveFirstMultiset(s[1..], v);
      assert s == [s[0]] + s[1..];
    } else {
      assert s == [v] + s[1..];
    }
  }

  /** Moving a member to the top ends with it, keeps the order of the
      rest and is a permutation. */
  lemma MoveToTopSpec<T>(s: seq<T>, v: T)
    requires v in s
    ensures var r := MoveToTop(s, v);
      |r| == |s| && r[|r| - 1] == v
      && r[..|r| - 1] == s[..IndexOf(s, v)] + s[IndexOf(s, v) + 1..]
      && multiset(r) == multiset(s)
  {
    RemoveFirstCuts(s, v);
    RemoveFirstMultiset(s, v);
    var r := MoveToTop(s, v);
    assert r[..|r| - 1] == RemoveFirst(s, v);
  }

  /** The top layer is already on top. */
  lemma MoveTopmost<T>(s: seq<T>, v: T)
    requires v !in s
    ensures MoveToTop(s + [v], v) == s + [v]
  {
    RemoveFirstCuts(s + [v], v);
    assert IndexOf(s + [v], v) == |s|;
    assert (s + [v])[..|s|] == s;
  }

  /** The index of the topmost (last) layer containing the point, or -1. */
  function TopmostHit(layers: seq<Layer>, px: int, py: int): (k: int)
    reads layers
    ensures -1 <= k < |layers|
    ensures k >= 0 ==> layers[k].Contains(px, py)
    ensures forall j :: k < j < |layers| ==> !layers[j].Contains(px, py)
  {
    if layers == [] then -1
    else if layers[|layers| - 1].Contains(px, py) then |layers| - 1
    else TopmostHit(layers[..|layers| - 1], px, py)
  }

  // ---------------------------------------------------------------------
  // Crop box and save format
  // ---------------------------------------------------------------------

  datatype Box = Box(left: int, top: int, right: int, bottom: int)

  function Max(a: int, b: int): int { if a >= b then a else b }
  function Min(a: int, b: int): int { if a <= b then a else b }

  /** The box `on_release` crops: both corners made relative to the
      layer's origin and clamped at 0, then ordered. */
  function CropBox(start: (int, int), end: (int, int), origin: (int, int)): (b: Box)
    ensures 0 <= b.left <= b.right && 0 <= b.top <= b.bottom
  {
    var rel0 := (Max(0, start.0 - origin.0), Max(0, start.1 - origin.1));
    var rel1 := (Max(0, end.0 - origin.0), Max(0, end.1 - origin.1));
    Box(Min(rel0.0, rel1.0), Min(rel0.1, rel1.1), Max(rel0.0, rel1.0), Max(rel0.1, rel1.1))
  }

  /** The crop box does not depend on which way the mouse was dragged. */
  lemma CropBoxSymmetric(a: (int, int), b: (int, int), origin: (int, int))
    ensures CropBox(a, b, origin) == CropBox(b, a, origin)
  {
  }

  /** A drag inside the layer selects exactly the dragged rectangle,
      relative to the layer. */
  lemma CropBoxInside(a: (int, int), b: (int, int), origin: (int, int))
    requires a.0 >= origin.0 && a.1 >= origin.1 && b.0 >= origin.0 && b.1 >= origin.1
    ensures var box := CropBox(a, b, origin);
      box.right - box.left == (if a.0 <= b.0 then b.0 - a.0 else a.0 - b.0)
      && box.bottom - box.top == (if a.1 <= b.1 then b.1 - a.1 else a.1 - b.1)
      && box.left + origin.0 == Min(a.0, b.0) && box.top + origin.1 == Min(a.1, b.1)
  {
  }

  datatype ImageFormat = Png | Jpeg | Bmp | Tiff | Gif

  /** The lower-cased extension `save_image` dispatches on. */
  function ExtensionOf(path: string): string
  {
    Lower(PosixPath.Splitext(path).1)
  }

  /** The format by extension; anything unknown is PNG. */
  function FormatOf(ext: string): ImageFormat
  {
    if ext == ".jpg" || ext == ".jpeg" then Jpeg
    else if ext == ".bmp" then Bmp
    else if ext == ".tif" || ext == ".tiff" then Tiff
    else if ext == ".gif" then Gif
    else Png
  }

  /** Whether the canvas image is converted to RGB (dropping alpha). */
  function ToRgb(ext: string): bool
  {
    var f := FormatOf(ext);
    f == Jpeg || f == Bmp || f == Gif
  }

  /** The table, both ways: each format is chosen by exactly its
      extensions, and only PNG and TIFF keep the alpha channel. */
  lemma FormatTable(ext: string)
    ensures FormatOf(ext) == Jpeg <==> ext in {".jpg", ".jpeg"}
    ensures FormatOf(ext) == Bmp <==> ext == ".bmp"
    ensures FormatOf(ext) == Tiff <==> ext in {".tif", ".tiff"}
    ensures FormatOf(ext) == Gif <==> ext == ".gif"
    ensures FormatOf(ext) == Png <==> ext !in {".jpg", ".jpeg", ".bmp", ".tif", ".tiff", ".gif"}
    ensures ToRgb(ext) <==> FormatOf(ext) != Png && FormatOf(ext) != Tiff
  {
  }

  /** The extension is matched without regard to case. */
  lemma UpperCaseExtension()
    ensures ExtensionOf("photo.JPG") == ".jpg" && FormatOf(ExtensionOf("photo.JPG")) == Jpeg
  {
    var stem, ext := "photo", "JPG";
    assert stem[0] != PosixPath.ExtSep;
    assert "" + stem + [PosixPath.ExtSep] + ext == "photo.JPG";
    PosixPath.SplitextAt("", stem, ext);
    assert [PosixPath.ExtSep] + ext == ".JPG";
    assert Lower(".JPG") == ".jpg";
  }

  // ---------------------------------------------------------------------
  // Dropped paths
  // ---------------------------------------------------------------------

  /** `re.findall(r'\{([^}]+)\}', data)`: from left to right, each '{'
      followed by at least one character up to the next '}' gives the
      text in between. */
  function BraceGroups(s: string): (r: seq<string>)
    ensures forall k :: 0 <= k < |r| ==> r[k] != [] && '}' !in r[k]
    decreases |s|
  {
    if s == [] then []
    else if s[0] != '{' then BraceGroups(s[1..])
    else
      var j := IndexOfChar(s[1..], '}');
      if j == 0 || j == |s| - 1 then BraceGroups(s[1..])
      else [s[1..j + 1]] + BraceGroups(s[j + 2..])
  }

  /** The candidate paths of `on_drop`: the brace groups if there are
      any, otherwise the whitespace-separated words, each stripped. */
  function DropPaths(data: string): seq<string>
  {
    var groups := BraceGroups(data);
    var raw := if groups != [] then groups else SplitWords(data);
    seq(|raw|, k requires 0 <= k < |raw| => Strip(raw[k]))
  }

  /** A braced path is one group. */
  lemma BracedPath(p: string, rest: string)
    requires p != [] && '}' !in p
    ensures BraceGroups("{" + p + "}" + rest) == [p] + BraceGroups(rest)
  {
    var s := "{" + p + "}" + rest;
    assert s[1..] == p + "}" + rest;
    forall k | 0 <= k < |p| ensures s[1..][k] != '}' {
      assert s[1..][k] == p[k];
    }
    IndexOfFirst(s[1..], '}', |p|);
    assert s[1..|p| + 1] == p;
    assert s[|p| + 2..] == rest;
  }

  /** Text without braces holds no group. */
  lemma {:induction false} NoBraces(s: string)
    requires '{' !in s
    ensures BraceGroups(s) == []
  {
    if s != [] {
      NoBraces(s[1..]);
    }
  }

  /** Two braced paths separated by a space are exactly those two paths,
      trimmed, even when they contain spaces. */
  lemma TwoBracedPaths(a: string, b: string)
    requires a != [] && '}' !in a && b != [] && '}' !in b
    ensures DropPaths("{" + a + "} {" + b + "}") == [Strip(a), Strip(b)]
  {
    var data := "{" + a + "} {" + b + "}";
    assert BraceGroups(data) == [a, b] by {
      TwoGroups(a, b);
    }
  }

  lemma TwoGroups(a: string, b: string)
    requires a != [] && '}' !in a && b != [] && '}' !in b
    ensures BraceGroups("{" + a + "} {" + b + "}") == [a, b]
  {
    var second := "{" + b + "}" + "";
    var tail := [' '] + second;
    assert "{" + a + "} {" + b + "}" == "{" + a + "}" + tail;
    BracedPath(a, tail);
    SkipChar(' ', second);
    BracedPath(b, "");
  }

  /** A character other than an opening brace starts no group. */
  lemma SkipChar(c: char, s: string)
    requires c != '{'
    ensures BraceGroups([c] + s) == BraceGroups(s)
  {
    assert ([c] + s)[1..] == s;
  }

  /** Without any group the candidates are the words of the text. */
  lemma PlainPaths(data: string)
    requires '{' !in data
    ensures DropPaths(data) == SplitWords(data)
  {
    NoBraces(data);
    var w := SplitWords(data);
    forall k | 0 <= k < |w| ensures Strip(w[k]) == w[k] {
      StripTrimmed(w[k]);
    }
  }

  /** The scan of `on_click` over `reversed(layers)`: the first layer met
      from the top that contains the point. */
  method ScanTopmost(layers: seq<Layer>, px: int, py: int) returns (k: int)
    ensures k == TopmostHit(layers, px, py)
  {
    var i := |layers|;
    while i > 0
      invariant 0 <= i <= |layers|
      invariant TopmostHit(layers, px, py) == TopmostHit(layers[..i], px, py)
    {
      i := i - 1;
      assert layers[..i + 1][..i] == layers[..i];
      if layers[i].Contains(px, py) {
        return i;
      }
    }
    return -1;
  }

  /** What the file system says about a path: absent when it is not a
      file, `None` when it is a file that is not an image, otherwise the
      size of the image. */
  type Files = map<string, Option<(nat, nat)>>

  /** `[p]` when `p` is a file that opens as an image, else `[]`. */
  function Added(p: string, files: Files): (r: seq<string>)
    ensures forall k :: 0 <= k < |r| ==> r[k] == p && p in files && files[p].Some?
  {
    if p in files && files[p].Some? then [p] else []
  }

  /** The first `n` dropped paths that become layers, in order. */
  function OpenedUpTo(paths: seq<string>, files: Files, n: nat): (r: seq<string>)
    requires n <= |paths|
    ensures |r| <= n
    ensures forall k :: 0 <= k < |r| ==> r[k] in paths && r[k] in files && files[r[k]].Some?
  {
    if n == 0 then [] else OpenedUpTo(paths, files, n - 1) + Added(paths[n - 1], files)
  }

  /** The dropped paths that become layers, in order. */
  function Opened(paths: seq<string>, files: Files): seq<string>
  {
    OpenedUpTo(paths, files, |paths|)
  }

  /** When every dropped path is an image, every one becomes a layer. */
  lemma OpenedEvery(paths: seq<string>, files: Files)
    requires forall k :: 0 <= k < |paths| ==> paths[k] in files && files[paths[k]].Some?
    ensures Opened(paths, files) == paths
  {
    OpenedEveryUpTo(paths, files, |paths|);
  }

  lemma {:induction false} OpenedEveryUpTo(paths: seq<string>, files: Files, n: nat)
    requires n <= |paths|
    requires forall k :: 0 <= k < |paths| ==> paths[k] in files && files[paths[k]].Some?
    ensures OpenedUpTo(paths, files, n) == paths[..n]
  {
    if n > 0 {
      OpenedEveryUpTo(paths, files, n - 1);
      assert paths[..n] == paths[..n - 1] + [paths[n - 1]];
    }
  }

  /** When no dropped path opens as an image, no layer is added. */
  lemma {:induction false} OpenedNoneUpTo(paths: seq<string>, files: Files, n: nat)
    requires n <= |paths|
    requires forall k :: 0 <= k < |paths| ==> paths[k] !in files || files[paths[k]].None?
    ensures OpenedUpTo(paths, files, n) == []
  {
    if n > 0 {
      OpenedNoneUpTo(paths, files, n - 1);
    }
  }

  /** The layers from index `start` on are the given files, in order, at
      (10, 10) with their image sizes. */
  predicate LayersFor(layers: seq<Layer>, start: nat, names: seq<string>, files: Files)
    requires forall k :: 0 <= k < |names| ==> names[k] in files && files[names[k]].Some?
    reads layers
  {
    |layers| == start + |names|
    && forall k :: 0 <= k < |names| ==>
      var l := layers[start + k];
      l.path == names[k] && l.x == 10 && l.y == 10 && l.scale == 1.0
      && l.width == files[names[k]].value.0 && l.height == files[names[k]].value.1
  }

  /** One more opened file, one more layer. */
  lemma LayersForSnoc(layers: seq<Layer>, start: nat, names: seq<string>, files: Files, l: Layer)
    requires forall k :: 0 <= k < |names| ==> names[k] in files && files[names[k]].Some?
    requires LayersFor(layers, start, names, files)
    requires l.path in files && files[l.path] == Some((l.width, l.height))
    requires l.x == 10 && l.y == 10 && l.scale == 1.0
    ensures LayersFor(layers + [l], start, names + [l.path], files)
  {
  }

  // ---------------------------------------------------------------------
  // The editor
  // ---------------------------------------------------------------------

  /** The editor's state: the layer list (last is topmost), the selection,
      the grab offset and the first corner of a crop in progress. */
  class Editor {
    var layers: seq<Layer>
    var selected: Layer?
    var dragOffset: (int, int)
    var cropStart: Option<(int, int)>

    /** Each layer is listed once and has been drawn; the selection is
        one of them. */
    predicate Valid()
      reads this, layers
    {
      (forall i, j :: 0 <= i < j < |layers| ==> layers[i] != layers[j])
      && (forall i :: 0 <= i < |layers| ==> layers[i].drawn)
      && (selected != null ==> selected in layers)
    }

    constructor()
      ensures Valid() && layers == [] && selected == null && dragOffset == (0, 0) && cropStart == None
    {
      layers := [];
      selected := null;
      dragOffset := (0, 0);
      cropStart := None;
    }

    /** `select_layer`. */
    method SelectLayer(layer: Layer)
      requires Valid() && layer in layers
      modifies this
      ensures Valid()
      ensures selected == layer && layers == MoveToTop(old(layers), layer)
      ensures dragOffset == old(dragOffset) && cropStart == old(cropStart)
    {
      MoveToTopSpec(layers, layer);
      var k := IndexOf(layers, layer);
      selected := layer;
      layers := RemoveFirst(layers, layer) + [layer];
      forall i, j | 0 <= i < j < |layers| ensures layers[i] != layers[j] {
        DistinctAfterMove(old(layers), layer, i, j);
      }
    }

    /** `_add_layer` for an image of the given size; an image that cannot
        be opened (`None`) adds nothing. */
    method AddLayer(path: string, size: Option<(nat, nat)>) returns (added: Layer?)
      requires Valid()
      modifies this
      ensures Valid()
      ensures size.None? ==> added == null && layers == old(layers) && selected == old(selected)
      ensures size.Some? ==>
        added != null && fresh(added) && layers == old(layers) + [added] && selected == added
        && added.x == 10 && added.y == 10 && added.width == size.value.0 && added.height == size.value.1
        && added.scale == 1.0 && added.path == path
      ensures dragOffset == old(dragOffset) && cropStart == old(cropStart)
    {
      if size.None? {
        return null;
      }
      var layer := new Layer(size.value.0, size.value.1, 10, 10, path);
      layer.UpdateCanvas();
      layers := layers + [layer];
      SelectLayer(layer);
      MoveTopmost(old(layers), layer);
      return layer;
    }

    /** One candidate of `on_drop`: added as a layer when it is a file. */
    method DropFile(p: string, files: Files, ghost start: nat, ghost names: seq<string>)
      requires Valid()
      requires forall k :: 0 <= k < |names| ==> names[k] in files && files[names[k]].Some?
      requires LayersFor(layers, start, names, files)
      modifies this
      ensures Valid()
      ensures |old(layers)| <= |layers| && layers[..|old(layers)|] == old(layers)
      ensures LayersFor(layers, start, names + Added(p, files), files)
      ensures Added(p, files) == [] ==> layers == old(layers) && selected == old(selected)
      ensures Added(p, files) != [] ==>
        |layers| == |old(layers)| + 1 && fresh(layers[|old(layers)|]) && selected == layers[|old(layers)|]
        && layers == old(layers) + [layers[|old(layers)|]]
      ensures dragOffset == old(dragOffset) && cropStart == old(cropStart)
    {
      ghost var before := layers;
      if p in files {
        var added := AddLayer(p, files[p]);
        if added != null {
          assert LayersFor(before, start, names, files);
          LayersForSnoc(before, start, names, files, added);
          return;
        }
      }
      assert names + Added(p, files) == names;
      assert LayersFor(before, start, names, files);
    }

    /** `on_drop`: each candidate path that is a file is added as a layer;
        files that do not open as images are reported and skipped. */
    method OnDrop(data: string, files: Files)
      requires Valid()
      modifies this
      ensures Dropped(old(layers), old(selected), DropPaths(data), files, |DropPaths(data)|)
      ensures dragOffset == old(dragOffset) && cropStart == old(cropStart)
    {
      var paths := DropPaths(data);
      DropAll(paths, files);
    }

    /** The loop of `on_drop`, over the candidate paths already parsed. */
    method DropAll(paths: seq<string>, files: Files)
      requires Valid()
      modifies this
      ensures Dropped(old(layers), old(selected), paths, files, |paths|)
      ensures dragOffset == old(dragOffset) && cropStart == old(cropStart)
    {
      DropNone(paths, files);
      var i := 0;
      while i < |paths|
        invariant 0 <= i <= |paths|
        invariant Dropped(old(layers), old(selected), paths, files, i)
        invariant dragOffset == old(dragOffset) && cropStart == old(cropStart)
      {
        DropStep(paths, files, i, old(layers), old(selected));
        i := i + 1;
      }
    }

    /** The state after the first `i` candidates of `paths`, from the layers
        `layers0` and the selection `selected0`. */
    predicate Dropped(layers0: seq<Layer>, selected0: Layer?, paths: seq<string>, files: Files, i: nat)
      reads this, layers
    {
      var names := OpenedUpTo(paths, files, if i <= |paths| then i else |paths|);
      Valid() && |layers0| <= |layers| && layers[..|layers0|] == layers0
      && LayersFor(layers, |layers0|, names, files)
      && (names == [] ==> selected == selected0)
      && (names != [] ==> selected == layers[|layers| - 1])
    }

    /** After the whole drop: the old layers are kept in order, one new layer
        per path that opened (in the order of the paths), and the selection is
        the last of them, or unchanged when none opened. */
    lemma DroppedAll(layers0: seq<Layer>, selected0: Layer?, paths: seq<string>, files: Files)
      requires Dropped(layers0, selected0, paths, files, |paths|)
      ensures var names := Opened(paths, files);
        Valid() && |layers| == |layers0| + |names| && layers[..|layers0|] == layers0
        && (forall k :: 0 <= k < |names| ==> layers[|layers0| + k].path == names[k])
        && (names == [] ==> selected == selected0)
        && (names != [] ==> selected == layers[|layers| - 1])
    {
    }

    /** Before the loop nothing has been dropped. */
    lemma DropNone(paths: seq<string>, files: Files)
      requires Valid()
      ensures Dropped(layers, selected, paths, files, 0)
    {
      assert layers[..|layers|] == layers;
    }

    /** One turn of the `on_drop` loop. */
    method DropStep(paths: seq<string>, files: Files, i: nat, ghost layers0: seq<Layer>, ghost selected0: Layer?)
      requires i < |paths| && Dropped(layers0, selected0, paths, files, i)
      modifies this
      ensures Dropped(layers0, selected0, paths, files, i + 1)
      ensures dragOffset == old(dragOffset) && cropStart == old(cropStart)
    {
      DropFile(paths[i], files, |layers0|, OpenedUpTo(paths, files, i));
    }

    /** `on_click`: outside a crop, select the topmost layer under the
        point and remember where it was grabbed; on empty canvas, clear
        the selection. */
    method OnClick(px: int, py: int)
      requires Valid()
      modifies this
      ensures Valid()
      ensures old(cropStart).Some? ==>
        layers == old(layers) && selected == old(selected) && dragOffset == old(dragOffset)
      ensures old(cropStart).None? ==>
        var k := old(TopmostHit(layers, px, py));
        (k >= 0 ==>
           selected == old(layers)[k] && layers == MoveToTop(old(layers), old(layers)[k])
           && dragOffset == (px - selected.x, py - selected.y))
        && (k < 0 ==> selected == null && layers == old(layers) && dragOffset == old(dragOffset))
      ensures cropStart == old(cropStart)
    {
      if cropStart.Some? {
        return;
      }
      var k := ScanTopmost(layers, px, py);
      if k >= 0 {
        var layer := layers[k];
        SelectLayer(layer);
        dragOffset := (px - layer.x, py - layer.y);
      } else {
        selected := null;
      }
    }

    /** `on_drag`: outside a crop, the selected layer follows the cursor
        so that the grab point stays under it. */
    method OnDrag(px: int, py: int)
      requires Valid()
      modifies this, selected
      ensures Valid() && layers == old(layers) && selected == old(selected)
      ensures dragOffset == old(dragOffset) && cropStart == old(cropStart)
      ensures selected != null && old(cropStart).None? ==>
        selected.x == px - dragOffset.0 && selected.y == py - dragOffset.1
      ensures selected != null && old(cropStart).Some? ==>
        selected.x == old(selected.x) && selected.y == old(selected.y)
      ensures selected != null ==>
        selected.width == old(selected.width) && selected.height == old(selected.height)
        && selected.drawn == old(selected.drawn) && selected.scale == old(selected.scale)
    {
      if cropStart.Some? && selected != null {
        // only the rubber-band rectangle is redrawn
      } else if selected != null {
        selected.x := px - dragOffset.0;
        selected.y := py - dragOffset.1;
      }
    }

    /** `crop_layer`: with a selection, forget any earlier crop corner (the
        next click sets it). */
    method ArmCrop()
      modifies this
      ensures layers == old(layers) && selected == old(selected) && dragOffset == old(dragOffset)
      ensures cropStart == if selected == null then old(cropStart) else None
    {
      if selected != null {
        cropStart := None;
      }
    }

    /** The click handler `crop_layer` installs: the first click sets the
        crop corner. */
    method SetCropStart(px: int, py: int)
      modifies this
      ensures layers == old(layers) && selected == old(selected) && dragOffset == old(dragOffset)
      ensures cropStart == if old(cropStart).None? then Some((px, py)) else old(cropStart)
    {
      if cropStart.None? {
        cropStart := Some((px, py));
      }
    }

    /** `on_release`: during a crop with a selection, the selected layer's
        image becomes the crop box of its displayed image, at scale 1, and
        the crop ends. */
    method OnRelease(px: int, py: int)
      requires Valid()
      modifies this, selected
      ensures Valid() && layers == old(layers) && selected == old(selected) && dragOffset == old(dragOffset)
      ensures old(cropStart).Some? && selected != null ==>
        var box := CropBox(old(cropStart).value, (px, py), (old(selected.x), old(selected.y)));
        selected.width == box.right - box.left && selected.height == box.bottom - box.top
        && selected.scale == 1.0 && cropStart == None
        && selected.x == old(selected.x) && selected.y == old(selected.y) && selected.drawn
      ensures !(old(cropStart).Some? && selected != null) ==>
        cropStart == old(cropStart)
        && (selected != null ==>
              selected.width == old(selected.width) && selected.height == old(selected.height)
              && selected.scale == old(selected.scale) && selected.x == old(selected.x)
              && selected.y == old(selected.y) && selected.drawn == old(selected.drawn))
    {
      if cropStart.Some? && selected != null {
        var box := CropBox(cropStart.value, (px, py), (selected.x, selected.y));
        selected.width := box.right - box.left;
        selected.height := box.bottom - box.top;
        selected.scale := 1.0;
        selected.drawn := true;
        cropStart := None;
      }
    }
  }

  /** Moving a layer to the top of a list without repeats leaves none. */
  lemma DistinctAfterMove<T>(s: seq<T>, v: T, i: int, j: int)
    requires v in s && forall a, b :: 0 <= a < b < |s| ==> s[a] != s[b]
    requires 0 <= i < j < |MoveToTop(s, v)|
    ensures MoveToTop(s, v)[i] != MoveToTop(s, v)[j]
  {
    var k := IndexOf(s, v);
    RemoveFirstCuts(s, v);
    var r := MoveToTop(s, v);
    // position p of the result comes from position p or p + 1 of s
    var si := if i < k then i else i + 1;
    assert r[i] == s[si];
    if j < |r| - 1 {
      var sj := if j < k then j else j + 1;
      assert r[j] == s[sj];
    } else {
      assert r[j] == s[k];
    }
  }
}
