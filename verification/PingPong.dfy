/**
 * The page publication protocol of a database object as a transition system, one label per
 * atomic action. Any number of callers of refreshHtml and any number of readers take part.
 */
module PingPong {
  import opened Bytes
  import opened Properties

  /**
   * The code as written, or with either of two corrections: the drain waits for the count to
   * reach zero instead of taking permits, and a reader loads the state and registers in one step.
   */
  datatype Config = Config(waits: bool, atomicOpen: bool)

  const AS_WRITTEN := Config(false, false)

  type PageIx = i: nat | i < 2

  /** One page file and its semaphore; the last three fields count what happened to the permits. */
  datatype PageFile = PageFile(bytes: string, count: nat, released: nat, acquired: nat, drained: nat)

  datatype Pages = Pages(page0: PageFile, page1: PageFile) {
    function Get(i: PageIx): PageFile {
      if i == 0 then page0 else page1
    }

    function Put(i: PageIx, p: PageFile): Pages {
      if i == 0 then this.(page0 := p) else this.(page1 := p)
    }
  }

  datatype StatesPair = StatesPair(first: bool, second: bool) {
    function Flip(): StatesPair {
      StatesPair(second, first)
    }

    /** The page readers open. */
    function Current(): PageIx {
      if first then 0 else 1
    }

    /** The page the next refresh rewrites. */
    function Spare(): PageIx {
      if first then 1 else 0
    }
  }

  /** Where the holder of ping_pong_lock_ stands; it keeps its own copy of the state it loaded. */
  datatype Renderer =
    | Free
    | Locked
    | Draining(state: StatesPair)
    | Drained(state: StatesPair)
    | Truncated(state: StatesPair)
    | HeadWritten(state: StatesPair)
    | Rendering(state: StatesPair, names: seq<string>, k: nat)
    | Closed(state: StatesPair)

  datatype Mutator = Idle | Notifying

  /** A reader between its state load and the end of its accessor; version is the publication it loaded. */
  datatype Reader = Reader(page: PageIx, version: int, length: Option<nat>, registered: bool)

  /**
   * pending is refresh_semaphore_, waiting the callers that contend for the mutex. The history
   * fields say what each publication consisted of and how often a page was truncated or a
   * property set.
   */
  datatype State = State(
    props: Properties,
    mutator: Mutator,
    pending: bool,
    waiting: nat,
    renderer: Renderer,
    state: StatesPair,
    pages: Pages,
    readers: map<nat, Reader>,
    published: seq<string>,
    truncations: nat,
    sets: nat)

  /** The page files of an earlier run are kept, so their first contents are arbitrary. */
  function Init(bytes0: string, bytes1: string): State {
    State([], Idle, false, 0, Free, StatesPair(true, false),
          Pages(PageFile(bytes0, 0, 0, 0, 0), PageFile(bytes1, 0, 0, 0, 0)),
          map[], [bytes0], 0, 0)
  }

  datatype MutatorStep =
    | Set(name: string, value: Option<Variant>)
    | Notify

  datatype RefreshStep =
    | TryAcquire
    | Call
    | Lock
    | Load
    | Drain
    | DrainEnd
    | Truncate
    | WriteHead
    | ListNames
    | RenderNext
    | WriteTail
    | Store

  datatype ReaderStep =
    | LoadState(r: nat)
    | OpenPage(r: nat)
    | Register(r: nat)
    | Finish(r: nat)

  datatype Step = Mutate(m: MutatorStep) | Refresh(f: RefreshStep) | Read(q: ReaderStep)

  /** The page a step truncates or writes. */
  function Touched(s: State, a: Step): Option<PageIx> {
    match (s.renderer, a) {
      case (Drained(st), Refresh(Truncate)) => Some(st.Spare())
      case (Truncated(st), Refresh(WriteHead)) => Some(st.Spare())
      case (Rendering(st, _, _), Refresh(RenderNext)) => Some(st.Spare())
      case (Rendering(st, _, _), Refresh(WriteTail)) => Some(st.Spare())
      case _ => None
    }
  }

  predicate RefreshEnabled(cfg: Config, s: State, f: RefreshStep) {
    match f {
      case TryAcquire => s.pending
      case Call => true
      case Lock => s.renderer.Free? && s.waiting > 0
      case Load => s.renderer.Locked?
      case Drain => s.renderer.Draining? && !cfg.waits && s.pages.Get(s.renderer.state.Spare()).count > 0
      case DrainEnd => s.renderer.Draining? && s.pages.Get(s.renderer.state.Spare()).count == 0
      case Truncate => s.renderer.Drained?
      case WriteHead => s.renderer.Truncated?
      case ListNames => s.renderer.HeadWritten?
      case RenderNext => s.renderer.Rendering? && s.renderer.k < |s.renderer.names|
      case WriteTail => s.renderer.Rendering? && s.renderer.k == |s.renderer.names|
      case Store => s.renderer.Closed?
    }
  }

  predicate ReaderEnabled(s: State, q: ReaderStep) {
    match q {
      case LoadState(r) => r !in s.readers
      case OpenPage(r) => r in s.readers && s.readers[r].length.None?
      case Register(r) => r in s.readers && s.readers[r].length.Some? && !s.readers[r].registered
      case Finish(r) =>
        && r in s.readers && s.readers[r].length.Some? && s.readers[r].registered
        && s.pages.Get(s.readers[r].page).count > 0
    }
  }

  predicate Enabled(cfg: Config, s: State, a: Step) {
    match a {
      case Mutate(Set(_, _)) => s.mutator == Idle
      case Mutate(Notify) => s.mutator == Notifying
      case Refresh(f) => RefreshEnabled(cfg, s, f)
      case Read(q) => ReaderEnabled(s, q)
    }
  }

  function Mutated(s: State, m: MutatorStep): State {
    match m {
      case Set(name, value) =>
        s.(props := SetProperty(s.props, name, value), mutator := Notifying, sets := s.sets + 1)
      case Notify => s.(mutator := Idle, pending := true)
    }
  }

  function Append(pages: Pages, i: PageIx, text: string): Pages {
    var p := pages.Get(i);
    pages.Put(i, p.(bytes := p.bytes + text))
  }

  /** The next element: the property is looked up again, and one deleted meanwhile writes nothing. */
  function RenderedText(props: Properties, name: string): string {
    match Lookup(props, name) {
      case None => ""
      case Some(v) => Save(v)
    }
  }

  function Refreshed(cfg: Config, s: State, f: RefreshStep): State
    requires RefreshEnabled(cfg, s, f)
  {
    match f {
      case TryAcquire => s.(pending := false, waiting := s.waiting + 1)
      case Call => s.(waiting := s.waiting + 1)
      case Lock => s.(waiting := s.waiting - 1, renderer := Locked)
      case Load => s.(renderer := Draining(s.state))
      case Drain =>
        var i := s.renderer.state.Spare();
        var p := s.pages.Get(i);
        s.(pages := s.pages.Put(i, p.(count := p.count - 1, drained := p.drained + 1)))
      case DrainEnd => s.(renderer := Drained(s.renderer.state))
      case Truncate =>
        var i := s.renderer.state.Spare();
        s.(pages := s.pages.Put(i, s.pages.Get(i).(bytes := "")),
           renderer := Truncated(s.renderer.state), truncations := s.truncations + 1)
      case WriteHead =>
        s.(pages := Append(s.pages, s.renderer.state.Spare(), HEAD), renderer := HeadWritten(s.renderer.state))
      case ListNames => s.(renderer := Rendering(s.renderer.state, Names(s.props), 0))
      case RenderNext =>
        s.(pages := Append(s.pages, s.renderer.state.Spare(), RenderedText(s.props, s.renderer.names[s.renderer.k])),
           renderer := s.renderer.(k := s.renderer.k + 1))
      case WriteTail =>
        s.(pages := Append(s.pages, s.renderer.state.Spare(), TAIL), renderer := Closed(s.renderer.state))
      case Store =>
        s.(state := s.renderer.state.Flip(), renderer := Free,
           published := s.published + [s.pages.Get(s.renderer.state.Spare()).bytes])
    }
  }

  function Released(pages: Pages, i: PageIx): Pages {
    var p := pages.Get(i);
    pages.Put(i, p.(count := p.count + 1, released := p.released + 1))
  }

  function Acquired(pages: Pages, i: PageIx): Pages
    requires pages.Get(i).count > 0
  {
    var p := pages.Get(i);
    pages.Put(i, p.(count := p.count - 1, acquired := p.acquired + 1))
  }

  function AfterReader(cfg: Config, s: State, q: ReaderStep): State
    requires ReaderEnabled(s, q)
  {
    match q {
      case LoadState(r) =>
        var i := s.state.Current();
        s.(readers := s.readers[r := Reader(i, |s.published| - 1, None, cfg.atomicOpen)],
           pages := if cfg.atomicOpen then Released(s.pages, i) else s.pages)
      case OpenPage(r) =>
        var reader := s.readers[r];
        s.(readers := s.readers[r := reader.(length := Some(|s.pages.Get(reader.page).bytes|))])
      case Register(r) =>
        var reader := s.readers[r];
        s.(readers := s.readers[r := reader.(registered := true)], pages := Released(s.pages, reader.page))
      case Finish(r) =>
        s.(readers := s.readers - {r}, pages := Acquired(s.pages, s.readers[r].page))
    }
  }

  function Apply(cfg: Config, s: State, a: Step): State
    requires Enabled(cfg, s, a)
  {
    match a {
      case Mutate(m) => Mutated(s, m)
      case Refresh(f) => Refreshed(cfg, s, f)
      case Read(q) => AfterReader(cfg, s, q)
    }
  }

  /** A sequence of labels is a run from s when each label is enabled in turn. */
  predicate Valid(cfg: Config, s: State, steps: seq<Step>)
    decreases |steps|
  {
    steps == [] || (Enabled(cfg, s, steps[0]) && Valid(cfg, Apply(cfg, s, steps[0]), steps[1..]))
  }

  function Run(cfg: Config, s: State, steps: seq<Step>): State
    requires Valid(cfg, s, steps)
    decreases |steps|
  {
    if steps == [] then s else Run(cfg, Apply(cfg, s, steps[0]), steps[1..])
  }

  ghost predicate Reaches(cfg: Config, s: State, t: State) {
    exists steps :: Valid(cfg, s, steps) && Run(cfg, s, steps) == t
  }

  ghost predicate Reachable(cfg: Config, s: State) {
    exists b0, b1, steps :: Valid(cfg, Init(b0, b1), steps) && Run(cfg, Init(b0, b1), steps) == s
  }
}
