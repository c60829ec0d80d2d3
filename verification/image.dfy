/**
 * The photo pipeline of `modules/image.py`: the loader's fallback chain (real file, then
 * the default image, then a light-grey blank), and the process-wide cache together with
 * each label's `current_loader`, driven by two kinds of event applied one at a time:
 * a request to show a component's photo, and a loader finishing.
 */
module Image {
  import opened Wrappers
  import opened Paths

  /** A display size `(width, height)`; the default is the configured IMAGE_LABEL_SIZE. */
  datatype Size = Size(width: int, height: int)

  /** Qt calls a size empty when either side is not positive. */
  predicate IsEmptySize(s: Size) {
    s.width <= 0 || s.height <= 0
  }

  datatype Color = LightGray

  /** A `QPixmap`, told apart by where its pixels came from. */
  datatype Pixmap =
    | NullPixmap
    /** `QPixmap(file)` of a file that decodes. */
    | Decoded(file: string)
    /** `QPixmap(w, h)` filled with one colour. */
    | Filled(size: Size, color: Color)
    /** `source.scaled(box, KeepAspectRatio, SmoothTransformation)`. */
    | Scaled(source: Pixmap, box: Size)

  /** `pixmap.isNull()`: a pixmap of empty size is null, and so is any scaling of a null one. */
  predicate IsNull(p: Pixmap) {
    match p
    case NullPixmap => true
    case Decoded(_) => false
    case Filled(size, _) => IsEmptySize(size)
    case Scaled(source, box) => IsNull(source) || IsEmptySize(box)
  }

  predicate Decodes(fs: FileSystem, path: string) {
    path in fs && fs[path].decodes
  }

  /** `QPixmap(path)`: null unless the file is there and decodes. */
  function Load(fs: FileSystem, path: string): (p: Pixmap)
    ensures IsNull(p) <==> !Decodes(fs, path)
  {
    if Decodes(fs, path) then Decoded(path) else NullPixmap
  }

  /** `p.scaled(box, ...)`: Qt returns a null pixmap for a null source or an empty box. */
  function Scale(p: Pixmap, box: Size): (r: Pixmap)
    ensures IsNull(r) <==> IsNull(p) || IsEmptySize(box)
  {
    if IsNull(p) || IsEmptySize(box) then NullPixmap else Scaled(p, box)
  }

  /** What a loader emits through its `finished` signal. */
  datatype Emission = Emission(path: string, pixmap: Pixmap)

  /**
   * `ImageLoader.run`: emits once, always under the requested path. The photo is used when
   * it is a file that decodes; otherwise the default image; otherwise a light-grey blank of
   * the requested size. The result is null exactly when the requested size is empty.
   */
  function LoaderRun(fs: FileSystem, imagePath: string, box: Size, defaultPath: string): (e: Emission)
    ensures e.path == imagePath
    ensures IsNull(e.pixmap) <==> IsEmptySize(box)
    ensures Decodes(fs, imagePath) ==> e.pixmap == Scale(Decoded(imagePath), box)
    ensures !Decodes(fs, imagePath) && Decodes(fs, defaultPath) ==> e.pixmap == Scale(Decoded(defaultPath), box)
    ensures !Decodes(fs, imagePath) && !Decodes(fs, defaultPath) ==> e.pixmap == Scale(Filled(box, LightGray), box)
  {
    var photo := if imagePath in fs then Load(fs, imagePath) else NullPixmap;
    if !IsNull(photo) then Emission(imagePath, Scale(photo, box))
    else
      var default := Load(fs, defaultPath);
      var fallback := if IsNull(default) then Filled(box, LightGray) else default;
      Emission(imagePath, Scale(fallback, box))
  }

  /** One `ImageLoader` thread: what it loads, for which label, and whether it still runs. */
  datatype Loader = Loader(path: string, box: Size, target: nat, running: bool, quitRequested: bool)

  /** What a label shows. */
  datatype Display = NoPicture | Showing(pixmap: Pixmap)

  /** A label: its picture and its `current_loader` (an index into the loaders started so far). */
  datatype LabelState = LabelState(display: Display, current: Option<nat>)

  /** The process-wide cache (path to pixmap), every label, and every loader ever started. */
  datatype ImageState = ImageState(cache: map<string, Pixmap>, labels: map<nat, LabelState>, loaders: seq<Loader>)

  const Init: ImageState := ImageState(map[], map[], [])

  /** A label the application never touched shows nothing and has no loader. */
  function LabelOf(st: ImageState, target: nat): LabelState {
    if target in st.labels then st.labels[target] else LabelState(NoPicture, None)
  }

  /**
   * `display_image_async(component_id, label, size)` with the image folder as read at the
   * time of the call. An empty id clears the label. On a cache hit the label shows the
   * cached pixmap and no loader is touched. On a miss a new loader for the photo path
   * becomes the label's current loader, and a still-running previous one is told to quit.
   */
  function DisplayImage(st: ImageState, target: nat, componentId: string, folder: string, box: Size): (st': ImageState)
    ensures forall l :: l != target ==> LabelOf(st', l) == LabelOf(st, l)
    ensures st'.cache == st.cache
    ensures componentId == "" ==>
              st'.loaders == st.loaders && LabelOf(st', target) == LabelOf(st, target).(display := NoPicture)
    ensures componentId != "" && ImagePath(folder, componentId) in st.cache ==>
              && st'.loaders == st.loaders
              && LabelOf(st', target) == LabelOf(st, target).(display := Showing(st.cache[ImagePath(folder, componentId)]))
    ensures componentId != "" && ImagePath(folder, componentId) !in st.cache ==>
              && |st'.loaders| == |st.loaders| + 1
              && st'.loaders[|st.loaders|] == Loader(ImagePath(folder, componentId), box, target, true, false)
              && LabelOf(st', target) == LabelOf(st, target).(current := Some(|st.loaders|))
              && (forall n :: 0 <= n < |st.loaders| && Some(n) != LabelOf(st, target).current ==>
                    st'.loaders[n] == st.loaders[n])
              && (forall n :: 0 <= n < |st.loaders| && Some(n) == LabelOf(st, target).current ==>
                    st'.loaders[n] == st.loaders[n].(quitRequested := st.loaders[n].quitRequested || st.loaders[n].running))
  {
    var ls := LabelOf(st, target);
    if componentId == "" then
      st.(labels := st.labels[target := ls.(display := NoPicture)])
    else
      var path := ImagePath(folder, componentId);
      if path in st.cache then
        st.(labels := st.labels[target := ls.(display := Showing(st.cache[path]))])
      else
        var loaders :=
          match ls.current
          case Some(prev) =>
            if prev < |st.loaders| && st.loaders[prev].running
            then st.loaders[prev := st.loaders[prev].(quitRequested := true)]
            else st.loaders
          case None => st.loaders;
        ImageState(st.cache, st.labels[target := ls.(current := Some(|loaders|))],
                   loaders + [Loader(path, box, target, true, false)])
  }

  /**
   * The `on_finished` closure of the request that started loader `id`: a non-null pixmap is
   * cached under its path and shown on the loader's label whether or not that loader is
   * still the label's current one; the label's `current_loader` is reset only if it is
   * still this loader. A null pixmap leaves cache and picture alone.
   */
  function OnFinished(st: ImageState, id: nat, path: string, pixmap: Pixmap): (st': ImageState)
    requires id < |st.loaders|
    ensures st'.loaders == st.loaders
    ensures st'.cache == if IsNull(pixmap) then st.cache else st.cache[path := pixmap]
    ensures var l := st.loaders[id].target;
            && LabelOf(st', l).display == (if IsNull(pixmap) then LabelOf(st, l).display else Showing(pixmap))
            && LabelOf(st', l).current == (if LabelOf(st, l).current == Some(id) then None else LabelOf(st, l).current)
    ensures forall l :: l != st.loaders[id].target ==> LabelOf(st', l) == LabelOf(st, l)
  {
    var l := st.loaders[id].target;
    var ls := LabelOf(st, l);
    var cache := if !IsNull(pixmap) then st.cache[path := pixmap] else st.cache;
    var display := if !IsNull(pixmap) then Showing(pixmap) else ls.display;
    var current := if ls.current == Some(id) then None else ls.current;
    ImageState(cache, st.labels[l := LabelState(display, current)], st.loaders)
  }

  /** The events the pipeline reacts to, one at a time. */
  datatype Event =
    /** `display_image_async` called for a label. */
    | Request(target: nat, componentId: string, folder: string, box: Size)
    /** Loader `loader` reaches the end of `run`, reading the files as they are at that moment. */
    | Finish(loader: nat, fs: FileSystem, defaultPath: string)

  /** Loader `id` finishes: it emits once and stops; a loader that is not running emits nothing. */
  function Complete(st: ImageState, id: nat, fs: FileSystem, defaultPath: string): ImageState {
    if id < |st.loaders| && st.loaders[id].running then
      var ld := st.loaders[id];
      var e := LoaderRun(fs, ld.path, ld.box, defaultPath);
      var stopped := st.(loaders := st.loaders[id := ld.(running := false)]);
      OnFinished(stopped, id, e.path, e.pixmap)
    else st
  }

  function Step(st: ImageState, ev: Event): ImageState {
    match ev
    case Request(target, componentId, folder, box) => DisplayImage(st, target, componentId, folder, box)
    case Finish(id, fs, defaultPath) => Complete(st, id, fs, defaultPath)
  }

  function Apply(st: ImageState, evs: seq<Event>): ImageState
    decreases |evs|
  {
    if |evs| == 0 then st else Apply(Step(st, evs[0]), evs[1..])
  }

  /**
   * What every reachable state satisfies: the cache and the labels hold only non-null
   * pixmaps, and a label's current loader is a running loader started for that label.
   */
  ghost predicate Inv(st: ImageState) {
    && (forall p :: p in st.cache ==> !IsNull(st.cache[p]))
    && (forall l :: l in st.labels && st.labels[l].display.Showing? ==> !IsNull(st.labels[l].display.pixmap))
    && (forall l :: l in st.labels && st.labels[l].current.Some? ==>
          var n := st.labels[l].current.value;
          n < |st.loaders| && st.loaders[n].running && st.loaders[n].target == l)
  }

  lemma InitInv()
    ensures Inv(Init)
  {
  }

  lemma DisplayImagePreservesInv(st: ImageState, target: nat, componentId: string, folder: string, box: Size)
    requires Inv(st)
    ensures Inv(DisplayImage(st, target, componentId, folder, box))
  {
    var st' := DisplayImage(st, target, componentId, folder, box);
    forall l | l in st'.labels && st'.labels[l].current.Some?
      ensures var n := st'.labels[l].current.value;
              n < |st'.loaders| && st'.loaders[n].running && st'.loaders[n].target == l
    {
      assert LabelOf(st', l) == st'.labels[l];
      if l != target {
        assert LabelOf(st, l) == st'.labels[l];
      }
    }
    forall l | l in st'.labels && st'.labels[l].display.Showing?
      ensures !IsNull(st'.labels[l].display.pixmap)
    {
      assert LabelOf(st', l) == st'.labels[l];
    }
  }

  lemma CompletePreservesInv(st: ImageState, id: nat, fs: FileSystem, defaultPath: string)
    requires Inv(st)
    ensures Inv(Complete(st, id, fs, defaultPath))
  {
    if id < |st.loaders| && st.loaders[id].running {
      var ld := st.loaders[id];
      var e := LoaderRun(fs, ld.path, ld.box, defaultPath);
      var stopped := st.(loaders := st.loaders[id := ld.(running := false)]);
      var st' := OnFinished(stopped, id, e.path, e.pixmap);
      forall l | l in st'.labels && st'.labels[l].current.Some?
        ensures var n := st'.labels[l].current.value;
                n < |st'.loaders| && st'.loaders[n].running && st'.loaders[n].target == l
      {
        assert LabelOf(st', l) == st'.labels[l];
        assert LabelOf(stopped, l) == LabelOf(st, l);
      }
      forall l | l in st'.labels && st'.labels[l].display.Showing?
        ensures !IsNull(st'.labels[l].display.pixmap)
      {
        assert LabelOf(st', l) == st'.labels[l];
        assert LabelOf(stopped, l) == LabelOf(st, l);
      }
    }
  }

  /** Every state reached from the initial one by any sequence of events satisfies `Inv`. */
  lemma {:induction false} ApplyPreservesInv(st: ImageState, evs: seq<Event>)
    requires Inv(st)
    ensures Inv(Apply(st, evs))
    decreases |evs|
  {
    if |evs| > 0 {
      match evs[0] {
        case Request(target, componentId, folder, box) => DisplayImagePreservesInv(st, target, componentId, folder, box);
        case Finish(id, fs, defaultPath) => CompletePreservesInv(st, id, fs, defaultPath);
      }
      ApplyPreservesInv(Step(st, evs[0]), evs[1..]);
    }
  }

  /** The cache is never evicted: a path cached once stays cached through any later events. */
  lemma {:induction false} CacheNeverShrinks(st: ImageState, evs: seq<Event>)
    ensures st.cache.Keys <= Apply(st, evs).cache.Keys
    decreases |evs|
  {
    if |evs| > 0 {
      var next := Step(st, evs[0]);
      assert st.cache.Keys <= next.cache.Keys;
      CacheNeverShrinks(next, evs[1..]);
    }
  }

  /** A loader emits at most once: finishing it a second time changes nothing. */
  lemma FinishOnce(st: ImageState, id: nat, fs: FileSystem, fs': FileSystem, defaultPath: string)
    ensures var once := Complete(st, id, fs, defaultPath);
            Complete(once, id, fs', defaultPath) == once
  {
  }

  /**
   * Once a loader with a non-empty size has finished, its path is cached, so any later
   * request resolving to that path shows the cached pixmap without starting a loader,
   * even if the photo file has appeared, changed or gone since.
   */
  lemma RequestAfterFinishHits(st: ImageState, id: nat, fs: FileSystem, defaultPath: string,
                               target: nat, componentId: string, folder: string, box: Size)
    requires id < |st.loaders| && st.loaders[id].running && !IsEmptySize(st.loaders[id].box)
    requires componentId != "" && ImagePath(folder, componentId) == st.loaders[id].path
    ensures var done := Complete(st, id, fs, defaultPath);
            var st' := DisplayImage(done, target, componentId, folder, box);
            && st'.loaders == done.loaders
            && LabelOf(st', target).display == Showing(LoaderRun(fs, st.loaders[id].path, st.loaders[id].box, defaultPath).pixmap)
  {
  }

  /**
   * A superseded loader's result is not discarded: when a loader that is no longer its
   * label's current loader finishes with a non-empty size, the label still switches to its
   * pixmap and the newer loader stays current.
   */
  lemma SupersededResultIsShown(st: ImageState, id: nat, fs: FileSystem, defaultPath: string)
    requires id < |st.loaders| && st.loaders[id].running && !IsEmptySize(st.loaders[id].box)
    requires LabelOf(st, st.loaders[id].target).current != Some(id)
    ensures var ld := st.loaders[id];
            var st' := Complete(st, id, fs, defaultPath);
            && LabelOf(st', ld.target).display == Showing(LoaderRun(fs, ld.path, ld.box, defaultPath).pixmap)
            && LabelOf(st', ld.target).current == LabelOf(st, ld.target).current
  {
    var ld := st.loaders[id];
    var stopped := st.(loaders := st.loaders[id := ld.(running := false)]);
    assert LabelOf(stopped, ld.target) == LabelOf(st, ld.target);
  }
}
