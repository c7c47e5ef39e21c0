/** The wrapping engine: configuration derived once from the options, text
    cut into break-tagged chunks, chunks sized into fragments under the
    overflow policy, and fragments packed greedily into indented lines that
    are joined by the line terminator.

    Widths are grapheme counts, so the width of a `Text` is its length.  The
    collaborators the engine consults but does not implement (the space-run
    breaker's break iteration, the URL-looking-token scan, the strict URL
    parser and the newline splitter) are functions handed in with the
    options. */
module LineWrapping {
  import opened GraphemeText

  /** What to do with a word longer than the working width.  `Unknown` is any
      other value a caller passes; construction rejects it. */
  datatype Overflow = Visible | Clip | Anywhere | Unknown(description: string)

  /** The indent option: a number of `indentChar`s, or a literal string. */
  datatype Indent = Columns(count: int) | Literal(text: Text)

  /** The wrapper's options.  `firstCol` is `None` where the option is NaN;
      `isNewline` is `None` where the pattern is null, and otherwise splits
      the text at every newline sequence it matches. */
  datatype Options = Options(
    ellipsis: Text,
    firstCol: Option<int>,
    hyphen: Text,
    indent: Indent,
    indentChar: Text,
    indentFirst: bool,
    isNewline: Option<Text -> seq<Text>>,
    newline: Text,
    newlineReplacement: Text,
    overflow: Overflow,
    width: int,
    escape: Text -> Text)

  /** The defaults every option falls back to, given the default newline
      splitter. */
  function Defaults(splitNewlines: Text -> seq<Text>): Options {
    Options(
      ellipsis := ["\U{2026}"],
      firstCol := None,
      hyphen := ["-"],
      indent := Literal([]),
      indentChar := [" "],
      indentFirst := true,
      isNewline := Some(splitNewlines),
      newline := ["\n"],
      newlineReplacement := [" "],
      overflow := Visible,
      width := 80,
      escape := s => s)
  }

  /** A break as produced by the space-run breaker: its text and whether it is
      a whitespace run. */
  datatype Span = Span(text: Text, space: bool)

  /** A URL-looking token found in a line: where it starts and its text. */
  datatype UrlMatch = UrlMatch(index: nat, text: Text)

  /** The external collaborators: the space-run breaker's break iteration,
      the URL-looking-token scan, and the strict URL parser. */
  datatype Engines = Engines(
    breaks: Text -> seq<Span>,
    urlMatches: Text -> seq<UrlMatch>,
    isUrl: Text -> bool)

  /** A chunk of the input: a space run, a verbatim URL, or ordinary text. */
  datatype Brk = Brk(text: Text, space: bool, verbatim: bool)

  /** A chunk, possibly cut or shortened, annotated with the width it takes. */
  datatype Fragment = Fragment(text: Text, space: bool, verbatim: bool, width: int)

  /** Everything the constructor derives from the options.  `enderWidth` is
      `None` where the source leaves it NaN (overflow visible). */
  datatype Layout = Layout(
    indent: Text,
    indentWidth: int,
    firstIndent: int,
    workingWidth: int,
    replacementWidth: nat,
    enderWidth: Option<nat>)

  datatype ConfigError = NoSpace(workingWidth: int) | InvalidOverflow(description: string)

  function IndentText(o: Options): Text {
    match o.indent
    case Columns(n) => PadEnd(n * |o.indentChar|, o.indentChar)
    case Literal(s) => s
  }

  function IndentWidth(o: Options): int {
    match o.indent
    case Columns(n) => n
    case Literal(s) => |s|
  }

  /** How wide the overflow marker is: the ellipsis under clip, the hyphen
      under anywhere, and NaN (`None`) otherwise. */
  function EnderWidth(ov: Overflow, o: Options): Option<nat> {
    match ov
    case Clip => Some(|o.ellipsis|)
    case Anywhere => Some(|o.hyphen|)
    case _ => None
  }

  /** The configuration the constructor derives, or the error it throws. */
  function Configure(o: Options): (r: Result<Layout, ConfigError>)
    ensures r.Failure? <==> o.width - IndentWidth(o) <= 0 || o.overflow.Unknown?
    ensures o.width - IndentWidth(o) <= 0 ==> r == Failure(NoSpace(o.width - IndentWidth(o)))
    ensures o.width - IndentWidth(o) > 0 && o.overflow.Unknown? ==>
      r == Failure(InvalidOverflow(o.overflow.description))
    ensures r.Success? ==>
      var l := r.value;
      && l.workingWidth == o.width - l.indentWidth > 0
      && l.replacementWidth == |o.newlineReplacement|
      && (o.indent.Columns? ==>
            && l.indentWidth == o.indent.count
            && |l.indent| == (if o.indent.count * |o.indentChar| <= 0 then 0 else o.indent.count * |o.indentChar|)
            && (forall i :: 0 <= i < |l.indent| ==> l.indent[i] == o.indentChar[i % |o.indentChar|]))
      && (o.indent.Literal? ==> l.indent == o.indent.text && l.indentWidth == |o.indent.text|)
      && l.firstIndent == (if o.indentFirst || o.firstCol.None? then l.indentWidth else o.firstCol.value)
      && (o.overflow == Visible ==> l.enderWidth == None)
      && (o.overflow == Clip ==> l.enderWidth == Some(|o.ellipsis|))
      && (o.overflow == Anywhere ==> l.enderWidth == Some(|o.hyphen|))
  {
    var iw := IndentWidth(o);
    var ww := o.width - iw;
    if ww <= 0 then Failure(NoSpace(ww))
    else
      match o.overflow
      case Unknown(d) => Failure(InvalidOverflow(d))
      case _ =>
        var ender := EnderWidth(o.overflow, o);
        Success(Layout(
          IndentText(o), iw,
          if o.indentFirst || o.firstCol.None? then iw else o.firstCol.value,
          ww, |o.newlineReplacement|, ender))
  }

  /** The defaults construct: no indent, a working width of 80, a
      one-grapheme newline replacement. */
  lemma DefaultsConfigure(splitNewlines: Text -> seq<Text>)
    ensures Configure(Defaults(splitNewlines)) ==
      Success(Layout([], 0, 0, 80, 1, None))
  {
  }

  /** Counts the graphemes of `s` one by one. */
  method GraphemeCount(s: Text) returns (n: nat)
    ensures n == |s|
  {
    n := 0;
    for i := 0 to |s|
      invariant n == i
    {
      n := n + 1;
    }
  }

  /** The breaker's spans as chunks, none of them verbatim. */
  function SpanBreaks(ss: seq<Span>): seq<Brk>
  {
    if ss == [] then [] else [Brk(ss[0].text, ss[0].space, false)] + SpanBreaks(ss[1..])
  }

  // Proof helpers: regrouping and membership facts about concatenated
  // sequences, with no counterpart in the wrapper itself.

  lemma Regroup<T>(a: seq<T>, b: seq<T>, c: seq<T>, d: seq<T>)
    ensures a + b + c + d == a + (b + c + d)
  {
  }

  lemma InThree<T>(x: T, a: seq<T>, b: seq<T>, c: seq<T>)
    requires x in a + b + c
    ensures x in a || x in b || x in c
  {
  }

  lemma InMiddle<T>(x: T, a: seq<T>, b: seq<T>, c: seq<T>)
    requires x in b
    ensures x in a + b + c
  {
  }

  lemma InLast<T>(x: T, a: seq<T>, b: seq<T>, c: seq<T>)
    requires x in c
    ensures x in a + b + c
  {
  }

  lemma Associate<T>(a: seq<T>, b: seq<T>, c: seq<T>)
    ensures a + b + c == a + (b + c)
  {
  }

  /** A reference cut of `g` into consecutive pieces of `page` graphemes,
      the last one possibly shorter. */
  function SplitEvery(g: Text, page: nat): seq<Text>
    requires page > 0
    decreases |g|
  {
    if g == [] then []
    else if |g| <= page then [g]
    else [g[..page]] + SplitEvery(g[page..], page)
  }

  /** The pieces reassemble `g`. */
  lemma {:induction false} SplitEveryConcat(g: Text, page: nat)
    requires page > 0
    ensures Concat(SplitEvery(g, page)) == g
    decreases |g|
  {
    if g == [] {
    } else if |g| <= page {
      ConcatSingle(g);
    } else {
      var rest := SplitEvery(g[page..], page);
      SplitEveryConcat(g[page..], page);
      assert SplitEvery(g, page) == [g[..page]] + rest;
      ConcatAppend([g[..page]], rest);
      ConcatSingle(g[..page]);
      assert g[..page] + g[page..] == g;
    }
  }

  /** There are ceil(|g| / page) pieces, all full but the last, none empty. */
  lemma {:induction false} SplitEverySizes(g: Text, page: nat)
    requires page > 0
    ensures |SplitEvery(g, page)| * page >= |g|
    ensures g != [] ==> (|SplitEvery(g, page)| - 1) * page < |g|
    ensures forall i :: 0 <= i < |SplitEvery(g, page)| - 1 ==> |SplitEvery(g, page)[i]| == page
    ensures forall i :: 0 <= i < |SplitEvery(g, page)| ==> 0 < |SplitEvery(g, page)[i]| <= page
    decreases |g|
  {
    var ps := SplitEvery(g, page);
    if g != [] && |g| > page {
      var rest := SplitEvery(g[page..], page);
      SplitEverySizes(g[page..], page);
      assert ps == [g[..page]] + rest;
      assert |ps| * page == |rest| * page + page;
      forall i | 0 <= i < |ps| ensures 0 < |ps[i]| <= page && (i < |ps| - 1 ==> |ps[i]| == page) {
        if i > 0 {
          assert ps[i] == rest[i - 1];
        }
      }
    }
  }

  /** The pieces reassemble `g`; there are ceil(|g| / page) of them, all
      full but the last, none empty. */
  lemma SplitEveryShape(g: Text, page: nat)
    requires page > 0
    ensures Concat(SplitEvery(g, page)) == g
    ensures |SplitEvery(g, page)| * page >= |g|
    ensures g != [] ==> (|SplitEvery(g, page)| - 1) * page < |g|
    ensures forall i :: 0 <= i < |SplitEvery(g, page)| - 1 ==> |SplitEvery(g, page)[i]| == page
    ensures forall i :: 0 <= i < |SplitEvery(g, page)| ==> 0 < |SplitEvery(g, page)[i]| <= page
  {
    SplitEveryConcat(g, page);
    SplitEverySizes(g, page);
  }

  lemma CutThree(s: Text, a: nat, b: nat, c: nat)
    requires a <= b <= c <= |s|
    ensures s[a..] == s[a..b] + s[b..c] + s[c..]
  {
  }

  /** The text of a run of chunks, read left to right. */
  function Texts(bs: seq<Brk>): Text {
    if bs == [] then [] else bs[0].text + Texts(bs[1..])
  }

  lemma {:induction false} TextsAppend(a: seq<Brk>, b: seq<Brk>)
    ensures Texts(a + b) == Texts(a) + Texts(b)
    decreases |a|
  {
    if a == [] {
      assert a + b == b;
    } else {
      assert (a + b)[1..] == a[1..] + b;
      TextsAppend(a[1..], b);
    }
  }

  function SpanTexts(ss: seq<Span>): Text {
    if ss == [] then [] else ss[0].text + SpanTexts(ss[1..])
  }

  lemma {:induction false} SpanBreaksTexts(ss: seq<Span>)
    ensures Texts(SpanBreaks(ss)) == SpanTexts(ss)
    ensures forall c :: c in SpanBreaks(ss) ==> !c.verbatim
    decreases |ss|
  {
    if ss != [] {
      SpanBreaksTexts(ss[1..]);
      var bs := SpanBreaks(ss);
      assert bs[1..] == SpanBreaks(ss[1..]);
    }
  }

  /** The space-run breaker cuts a string into spans that together are the
      whole string. */
  ghost predicate BreaksPartition(e: Engines) {
    forall s :: SpanTexts(e.breaks(s)) == s
  }

  /** The URL-looking tokens of `piece` from the `k`-th on, as a global
      left-to-right scan finds them: each at its index, none overlapping, the
      first not before `offset`. */
  ghost predicate MatchesFrom(piece: Text, ms: seq<UrlMatch>, k: nat, offset: nat)
    decreases |ms| - k
  {
    && offset <= |piece|
    && (k < |ms| ==>
          && offset <= ms[k].index
          && ms[k].index + |ms[k].text| <= |piece|
          && piece[ms[k].index..ms[k].index + |ms[k].text|] == ms[k].text
          && MatchesFrom(piece, ms, k + 1, ms[k].index + |ms[k].text|))
  }

  /** The state of the line packer: lines emitted so far, the line being
      built and the column it reaches, and the pending (uncommitted) spaces
      with their width. */
  datatype PackState = PackState(out: seq<Text>, line: Text, cur: int, spaces: Text, spLen: int)

  /** A wrapper: options and collaborators fixed at construction, with the
      configuration derived from them. */
  class LineWrap {
    const opts: Options
    const engines: Engines
    const indent: Text
    const indentWidth: int
    const firstIndent: int
    const workingWidth: int
    const replacementWidth: nat
    const enderWidth: Option<nat>

    /** The fields hold the configuration derived from `opts`. */
    ghost predicate Valid() {
      && indent == IndentText(opts)
      && indentWidth == IndentWidth(opts)
      && firstIndent == (if opts.indentFirst || opts.firstCol.None? then indentWidth else opts.firstCol.value)
      && workingWidth == opts.width - indentWidth > 0
      && replacementWidth == |opts.newlineReplacement|
      && enderWidth == EnderWidth(opts.overflow, opts)
      && !opts.overflow.Unknown?
    }

    lemma ValidIsConfigured()
      ensures Valid() <==>
        Configure(opts) == Success(Layout(indent, indentWidth, firstIndent, workingWidth, replacementWidth, enderWidth))
    {
    }

    /** Under overflow anywhere, each page holds at least one grapheme; with
        a hyphen as wide as the working width the source never finishes
        splitting a long word. */
    predicate PagesAdvance() {
      opts.overflow == Anywhere ==> enderWidth.Some? && workingWidth - enderWidth.value > 0
    }

    constructor Init(opts: Options, engines: Engines, layout: Layout)
      requires Configure(opts) == Success(layout)
      ensures Valid() && this.opts == opts && this.engines == engines
    {
      assert layout.enderWidth == EnderWidth(opts.overflow, opts);
      this.opts := opts;
      this.engines := engines;
      indent := layout.indent;
      indentWidth := layout.indentWidth;
      firstIndent := layout.firstIndent;
      workingWidth := layout.workingWidth;
      replacementWidth := layout.replacementWidth;
      enderWidth := layout.enderWidth;
    }

    /** The constructor: derives the configuration field by field and fails
        where the source throws. */
    static method Create(opts: Options, engines: Engines) returns (r: Result<LineWrap, ConfigError>)
      ensures Configure(opts).Failure? ==> r == Failure(Configure(opts).error)
      ensures Configure(opts).Success? ==>
        r.Success? && fresh(r.value) && r.value.Valid() &&
        r.value.opts == opts && r.value.engines == engines
    {
      var indent: Text;
      var indentWidth: int;
      match opts.indent {
        case Columns(n) =>
          indent := PadEnd(n * |opts.indentChar|, opts.indentChar);
          indentWidth := n;
        case Literal(s) =>
          indent := s;
          indentWidth := GraphemeCount(s);
      }
      var firstIndent := if opts.indentFirst || opts.firstCol.None? then indentWidth else opts.firstCol.value;
      var workingWidth := opts.width - indentWidth;
      if workingWidth <= 0 {
        return Failure(NoSpace(workingWidth));
      }
      var replacementWidth := GraphemeCount(opts.newlineReplacement);
      var enderWidth: Option<nat>;
      match opts.overflow {
        case Visible =>
          enderWidth := None;
        case Clip =>
          var w := GraphemeCount(opts.ellipsis);
          enderWidth := Some(w);
        case Anywhere =>
          var w := GraphemeCount(opts.hyphen);
          enderWidth := Some(w);
        case Unknown(d) =>
          return Failure(InvalidOverflow(d));
      }
      var lw := new LineWrap.Init(opts, engines,
        Layout(indent, indentWidth, firstIndent, workingWidth, replacementWidth, enderWidth));
      return Success(lw);
    }

    // -------------------------------------------------------------------
    // Fragment sizing

    /** A page of an over-long word that another page follows: the piece
        and the hyphen. */
    function Hyphenated(p: Text, verbatim: bool): Fragment
      requires enderWidth.Some?
    {
      Fragment(p + opts.hyphen, false, verbatim, |p| + enderWidth.value)
    }

    /** The page of an over-long word starting at `offset`: `page`
        graphemes, or what is left of the word, hyphenated when more of the
        word follows. */
    function PageAt(b: Brk, offset: nat): Fragment
      requires enderWidth.Some? && workingWidth - enderWidth.value > 0
    {
      var page := workingWidth - enderWidth.value;
      var pg := Slice(b.text, offset, offset + page);
      if offset + page < |b.text| then Hyphenated(pg, b.verbatim)
      else Fragment(pg, false, b.verbatim, |pg|)
    }

    /** The pages of an over-long word from `offset` on. */
    function PagesFrom(b: Brk, offset: nat): (r: seq<Fragment>)
      requires enderWidth.Some? && workingWidth - enderWidth.value > 0
      decreases |b.text| - offset
    {
      if offset >= |b.text| then []
      else [PageAt(b, offset)] + PagesFrom(b, offset + workingWidth - enderWidth.value)
    }

    lemma NextPage(b: Brk, offset: nat, done: seq<Fragment>, whole: seq<Fragment>)
      requires enderWidth.Some? && workingWidth - enderWidth.value > 0
      requires offset < |b.text| && done + PagesFrom(b, offset) == whole
      ensures done + [PageAt(b, offset)] + PagesFrom(b, offset + (workingWidth - enderWidth.value)) == whole
    {
      Associate(done, [PageAt(b, offset)], PagesFrom(b, offset + (workingWidth - enderWidth.value)));
    }

    /** The fragments a chunk becomes. */
    function FragmentsOf(b: Brk): (r: seq<Fragment>)
      requires Valid() && PagesAdvance()
    {
      var n := |b.text|;
      if n < workingWidth then [Fragment(b.text, b.space, b.verbatim, n)]
      else if b.space then [Fragment(opts.newlineReplacement, true, b.verbatim, replacementWidth)]
      else
        match opts.overflow
        case Visible => [Fragment(b.text, false, b.verbatim, n)]
        case Clip =>
          [Fragment(Slice(b.text, 0, workingWidth - enderWidth.value) + opts.ellipsis,
                    false, b.verbatim, workingWidth)]
        case Anywhere => PagesFrom(b, 0)
        case Unknown(_) => []
    }

    method Fragments(b: Brk) returns (r: seq<Fragment>)
      requires Valid() && PagesAdvance()
      ensures r == FragmentsOf(b)
    {
      var graphemes := GraphemeCount(b.text);
      if graphemes < workingWidth {
        return [Fragment(b.text, b.space, b.verbatim, graphemes)];
      }
      if b.space {
        return [Fragment(opts.newlineReplacement, true, b.verbatim, replacementWidth)];
      }
      match opts.overflow {
        case Visible =>
          r := [Fragment(b.text, false, b.verbatim, graphemes)];
        case Clip =>
          r := [Fragment(Slice(b.text, 0, workingWidth - enderWidth.value) + opts.ellipsis,
                         false, b.verbatim, workingWidth)];
        case Anywhere =>
          r := Pages(b);
        case Unknown(_) =>
          r := [];
      }
    }

    /** Cuts an over-long word into pages, hyphenating every page but the
        last. */
    method Pages(b: Brk) returns (r: seq<Fragment>)
      requires enderWidth.Some? && workingWidth - enderWidth.value > 0
      ensures r == PagesFrom(b, 0)
    {
      var g := b.text;
      var page := workingWidth - enderWidth.value;
      ghost var whole := PagesFrom(b, 0);
      r := [];
      var offset: nat := 0;
      while offset < |g|
        invariant r + PagesFrom(b, offset) == whole
        decreases |g| - offset
      {
        var pg := Slice(g, offset, offset + page);
        var f: Fragment;
        if offset + page < |g| {
          f := Fragment(pg + opts.hyphen, false, b.verbatim, |pg| + enderWidth.value);
        } else {
          f := Fragment(pg, false, b.verbatim, |pg|);
        }
        assert f == PageAt(b, offset);
        NextPage(b, offset, r, whole);
        r := r + [f];
        offset := offset + page;
      }
    }

    // -------------------------------------------------------------------
    // Chunking

    function BreaksOf(s: Text): seq<Brk> {
      SpanBreaks(engines.breaks(s))
    }

    /** The chunks of one line of input from its `k`-th URL-looking token
        on, the text before `offset` being already consumed: the text before
        a token, the token itself (verbatim when it parses as a URL), and,
        after the last token, the rest of the line. */
    function PieceChunks(piece: Text, ms: seq<UrlMatch>, k: nat, offset: nat): seq<Brk>
      decreases |ms| - k
    {
      if k >= |ms| then
        if offset < |piece| then BreaksOf(piece[offset..]) else []
      else
        Gap(piece, offset, ms[k].index) + Token(ms[k].text)
        + PieceChunks(piece, ms, k + 1, ms[k].index + |ms[k].text|)
    }

    lemma PieceChunksStep(piece: Text, ms: seq<UrlMatch>, k: nat, offset: nat)
      requires k < |ms|
      ensures PieceChunks(piece, ms, k, offset) ==
        Gap(piece, offset, ms[k].index) + Token(ms[k].text) + PieceChunks(piece, ms, k + 1, ms[k].index + |ms[k].text|)
    {
    }

    lemma PieceChunksAdvance(piece: Text, ms: seq<UrlMatch>, k: nat, offset: nat, done: seq<Brk>, whole: seq<Brk>)
      requires k < |ms| && done + PieceChunks(piece, ms, k, offset) == whole
      ensures done + Gap(piece, offset, ms[k].index) + Token(ms[k].text)
        + PieceChunks(piece, ms, k + 1, ms[k].index + |ms[k].text|) == whole
    {
      PieceChunksStep(piece, ms, k, offset);
      Regroup(done, Gap(piece, offset, ms[k].index), Token(ms[k].text),
              PieceChunks(piece, ms, k + 1, ms[k].index + |ms[k].text|));
    }

    function Gap(piece: Text, offset: nat, index: nat): seq<Brk> {
      if index > offset then BreaksOf(Slice(piece, offset, index)) else []
    }

    function Token(t: Text): seq<Brk> {
      if engines.isUrl(t) then [Brk(t, false, true)] else BreaksOf(t)
    }

    /** The newline replacement's breaks, placed before every line of input
        but the first. */
    function Separator(i: nat): seq<Brk> {
      if i > 0 && opts.newlineReplacement != [] then BreaksOf(opts.newlineReplacement) else []
    }

    /** The chunks of the lines of input from the `i`-th on. */
    function PiecesChunks(pieces: seq<Text>, i: nat): seq<Brk>
      decreases |pieces| - i
    {
      if i >= |pieces| then []
      else
        Separator(i) + PieceChunks(pieces[i], engines.urlMatches(pieces[i]), 0, 0)
        + PiecesChunks(pieces, i + 1)
    }

    function SplitLines(text: Text): seq<Text> {
      match opts.isNewline
      case None => [text]
      case Some(split) => split(text)
    }

    function ChunksOf(text: Text): seq<Brk> {
      PiecesChunks(SplitLines(text), 0)
    }

    /** The chunks of one line of input, token by token. */
    method LineChunks(line: Text) returns (own: seq<Brk>)
      ensures own == PieceChunks(line, engines.urlMatches(line), 0, 0)
    {
      var ms := engines.urlMatches(line);
      ghost var whole := PieceChunks(line, ms, 0, 0);
      own := [];
      var offset: nat := 0;
      for k := 0 to |ms|
        invariant own + PieceChunks(line, ms, k, offset) == whole
      {
        var m := ms[k];
        var ind := m.index;
        var gap := Gap(line, offset, ind);
        var token := Token(m.text);
        PieceChunksAdvance(line, ms, k, offset, own, whole);
        own := own + gap + token;
        offset := ind + |m.text|;
      }
      ghost var tail := PieceChunks(line, ms, |ms|, offset);
      if offset < |line| {
        assert tail == BreaksOf(line[offset..]);
        own := own + BreaksOf(line[offset..]);
      } else {
        assert tail == [] && own + tail == own;
      }
    }

    method Chunks(text: Text) returns (chunks: seq<Brk>)
      ensures chunks == ChunksOf(text)
    {
      var texts := SplitLines(text);
      var first := true;
      chunks := [];
      for i := 0 to |texts|
        invariant first == (i == 0)
        invariant chunks + PiecesChunks(texts, i) == PiecesChunks(texts, 0)
      {
        var sep: seq<Brk> := [];
        if first {
          first := false;
        } else if opts.newlineReplacement != [] {
          sep := BreaksOf(opts.newlineReplacement);
        }
        var own := LineChunks(texts[i]);
        Regroup(chunks, sep, own, PiecesChunks(texts, i + 1));
        chunks := chunks + sep + own;
      }
    }

    // -------------------------------------------------------------------
    // Line packing

    /** The text a fragment contributes: escaped unless it is a verbatim URL. */
    function Seg(f: Fragment): Text {
      if f.verbatim then f.text else opts.escape(f.text)
    }

    function InitialLine(): Text {
      if opts.indentFirst then indent else []
    }

    function Start(): PackState {
      PackState([], InitialLine(), firstIndent, [], 0)
    }

    /** One fragment through the packer.  Spaces are only ever held pending;
        a word is placed at the start of a line unconditionally, after the
        pending spaces when they and it still fit, and otherwise on a fresh
        line after the current one is emitted. */
    function Step(st: PackState, f: Fragment): PackState
    {
      if f.space then
        st.(spaces := st.spaces + Seg(f), spLen := st.spLen + f.width)
      else if st.cur == indentWidth then
        st.(line := st.line + Seg(f), cur := st.cur + f.width, spaces := [], spLen := 0)
      else if st.cur + st.spLen + f.width <= opts.width then
        st.(line := st.line + st.spaces + Seg(f), cur := st.cur + st.spLen + f.width,
            spaces := [], spLen := 0)
      else
        PackState(st.out + [st.line], indent + Seg(f), indentWidth + f.width, [], 0)
    }

    /** The packer run over the fragments of a chunk from the `j`-th on. */
    function PackFrom(st: PackState, fs: seq<Fragment>, j: nat): PackState
      decreases |fs| - j
    {
      if j >= |fs| then st else PackFrom(Step(st, fs[j]), fs, j + 1)
    }

    /** The packer run over the chunks from the `i`-th on. */
    function PackChunks(st: PackState, bs: seq<Brk>, i: nat): PackState
      requires Valid() && PagesAdvance()
      decreases |bs| - i
    {
      if i >= |bs| then st else PackChunks(PackFrom(st, FragmentsOf(bs[i]), 0), bs, i + 1)
    }

    /** The left-over line is emitted only if something advanced its column. */
    function Finish(st: PackState): seq<Text> {
      if st.cur > indentWidth then st.out + [st.line] else st.out
    }

    /** The lines of `text`, indented and without terminators. */
    function LinesOf(text: Text): seq<Text>
      requires Valid() && PagesAdvance()
    {
      if text == [] then (if opts.indentFirst then [indent] else [])
      else Finish(PackChunks(Start(), ChunksOf(text), 0))
    }

    /** The packer's state, with its output, carried through the fragments of
        one chunk. */
    method Place(st: PackState, frags: seq<Fragment>) returns (r: PackState)
      ensures r == PackFrom(st, frags, 0)
    {
      var lines := st.out;
      var line := st.line;
      var cur := st.cur;
      var spaces := st.spaces;
      var spLen := st.spLen;
      for j := 0 to |frags|
        invariant PackFrom(PackState(lines, line, cur, spaces, spLen), frags, j) == PackFrom(st, frags, 0)
      {
        var frag := frags[j];
        var seg := if frag.verbatim then frag.text else opts.escape(frag.text);
        if frag.space {
          spaces := spaces + seg;
          spLen := spLen + frag.width;
        } else {
          var nonSpLen := frag.width;
          if cur == indentWidth {
            line := line + seg;
            cur := cur + nonSpLen;
            spaces := [];
            spLen := 0;
          } else if cur + spLen + nonSpLen <= opts.width {
            line := line + spaces;
            cur := cur + spLen;
            line := line + seg;
            cur := cur + nonSpLen;
            spaces := [];
            spLen := 0;
          } else {
            lines := lines + [line];
            line := indent + seg;
            cur := indentWidth + nonSpLen;
            spaces := [];
            spLen := 0;
          }
        }
      }
      r := PackState(lines, line, cur, spaces, spLen);
    }

    method Lines(text: Text) returns (lines: seq<Text>)
      requires Valid() && PagesAdvance()
      ensures lines == LinesOf(text)
    {
      if |text| == 0 {
        if opts.indentFirst {
          return [indent];
        }
        return [];
      }
      var st := Start();
      var chunks := Chunks(text);
      for i := 0 to |chunks|
        invariant PackChunks(st, chunks, i) == PackChunks(Start(), chunks, 0)
      {
        var frags := Fragments(chunks[i]);
        st := Place(st, frags);
      }
      lines := st.out;
      if st.cur > indentWidth {
        lines := lines + [st.line];
      }
    }

    /** `wrap`: the lines joined by the terminator, with none after the last:
        the result ends with the last line, and holds one terminator fewer
        than there are lines. */
    method Wrap(text: Text) returns (s: Text)
      requires Valid() && PagesAdvance()
      ensures s == Join(LinesOf(text), opts.newline)
      ensures var ls := LinesOf(text);
        ls != [] ==> EndsWith(s, ls[|ls| - 1]) && |s| == TotalLength(ls) + (|ls| - 1) * |opts.newline|
      ensures text == [] ==> s == if opts.indentFirst then indent else []
    {
      var ls := Lines(text);
      s := Join(ls, opts.newline);
      JoinShape(ls, opts.newline);
    }

    // -------------------------------------------------------------------
    // Properties of fragment sizing

    /** A chunk becomes at least one fragment, keeping its verbatim and
        space tags.  One that fits is passed on unchanged with its width; an
        over-long space run collapses to the newline replacement; only
        overflow anywhere ever makes more than one fragment. */
    lemma FragmentsShape(b: Brk)
      requires Valid() && PagesAdvance()
      ensures var r := FragmentsOf(b);
        && |r| >= 1
        && (forall f :: f in r ==> f.verbatim == b.verbatim && (f.space <==> b.space))
        && (|b.text| < workingWidth ==> r == [Fragment(b.text, b.space, b.verbatim, |b.text|)])
        && (|b.text| >= workingWidth && b.space ==>
              r == [Fragment(opts.newlineReplacement, true, b.verbatim, |opts.newlineReplacement|)])
        && (opts.overflow == Visible && !b.space ==> r == [Fragment(b.text, false, b.verbatim, |b.text|)])
        && (|r| > 1 ==> opts.overflow == Anywhere)
    {
      if |b.text| >= workingWidth && !b.space && opts.overflow == Anywhere {
        PagesSplit(b, 0);
        var fs := FragmentsOf(b);
        forall f | f in fs ensures f.verbatim == b.verbatim && !f.space {
          var i :| 0 <= i < |fs| && fs[i] == f;
        }
        SplitEveryShape(b.text[0..], workingWidth - enderWidth.value);
      }
    }

    /** `fs` are the pieces `ps` of a word, each followed by the hyphen
        except the last. */
    ghost predicate PagedAs(fs: seq<Fragment>, ps: seq<Text>, verbatim: bool)
      requires enderWidth.Some?
    {
      && |fs| == |ps|
      && forall i :: 0 <= i < |fs| ==>
           fs[i] == if i < |fs| - 1 then Hyphenated(ps[i], verbatim) else Fragment(ps[i], false, verbatim, |ps[i]|)
    }

    lemma PagedCons(p: Text, fs: seq<Fragment>, ps: seq<Text>, verbatim: bool)
      requires enderWidth.Some? && PagedAs(fs, ps, verbatim) && ps != []
      ensures PagedAs([Hyphenated(p, verbatim)] + fs, [p] + ps, verbatim)
    {
      var fs2 := [Hyphenated(p, verbatim)] + fs;
      var ps2 := [p] + ps;
      forall i | 0 <= i < |fs2|
        ensures fs2[i] == if i < |fs2| - 1 then Hyphenated(ps2[i], verbatim)
                          else Fragment(ps2[i], false, verbatim, |ps2[i]|)
      {
        if i > 0 {
          assert fs2[i] == fs[i - 1] && ps2[i] == ps[i - 1];
        }
      }
    }

    /** The pages from `offset` on are the reference cut of the rest of the
        word, each followed by the hyphen except the last. */
    lemma {:induction false} PagesSplit(b: Brk, offset: nat)
      requires enderWidth.Some? && workingWidth - enderWidth.value > 0
      requires offset <= |b.text|
      ensures PagedAs(PagesFrom(b, offset), SplitEvery(b.text[offset..], workingWidth - enderWidth.value), b.verbatim)
      decreases |b.text| - offset
    {
      var page := workingWidth - enderWidth.value;
      if offset + page < |b.text| {
        PagesSplit(b, offset + page);
        PagesSplitMore(b, offset);
      } else if offset < |b.text| {
        PagesSplitLast(b, offset);
      }
    }

    lemma PagesSplitMore(b: Brk, offset: nat)
      requires enderWidth.Some? && workingWidth - enderWidth.value > 0
      requires offset + (workingWidth - enderWidth.value) < |b.text|
      requires PagedAs(PagesFrom(b, offset + (workingWidth - enderWidth.value)),
                       SplitEvery(b.text[offset + (workingWidth - enderWidth.value)..], workingWidth - enderWidth.value),
                       b.verbatim)
      ensures PagedAs(PagesFrom(b, offset), SplitEvery(b.text[offset..], workingWidth - enderWidth.value), b.verbatim)
    {
      var page := workingWidth - enderWidth.value;
      var g := b.text;
      var rest, piece, tail := g[offset..], g[offset..offset + page], g[offset + page..];
      var ps', fs' := SplitEvery(tail, page), PagesFrom(b, offset + page);
      assert PagedAs(fs', ps', b.verbatim);
      assert ps' != [] by {
        assert tail != [];
      }
      assert SplitEvery(rest, page) == [piece] + ps' by {
        assert rest[page..] == tail && rest[..page] == piece;
      }
      assert PageAt(b, offset) == Hyphenated(piece, b.verbatim) by {
        SliceCases(g, offset, offset + page);
      }
      assert PagesFrom(b, offset) == [Hyphenated(piece, b.verbatim)] + fs';
      PagedCons(piece, fs', ps', b.verbatim);
    }

    lemma PagesSplitLast(b: Brk, offset: nat)
      requires enderWidth.Some? && workingWidth - enderWidth.value > 0
      requires offset < |b.text| <= offset + (workingWidth - enderWidth.value)
      ensures PagedAs(PagesFrom(b, offset), SplitEvery(b.text[offset..], workingWidth - enderWidth.value), b.verbatim)
    {
      var page := workingWidth - enderWidth.value;
      var rest := b.text[offset..];
      var f := Fragment(rest, false, b.verbatim, |rest|);
      assert Slice(b.text, offset, offset + page) == rest;
      assert PageAt(b, offset) == f;
      assert PagesFrom(b, offset + page) == [];
      assert PagesFrom(b, offset) == [f];
      assert SplitEvery(rest, page) == [rest];
    }

    /** Overflow anywhere: a long word becomes ceil(n / page) fragments, all
        but the last being `page` graphemes and the hyphen, `workingWidth`
        wide; with the hyphens dropped, the pieces reassemble the word. */
    lemma AnywhereSplits(b: Brk)
      requires Valid() && PagesAdvance() && opts.overflow == Anywhere
      requires !b.space && |b.text| >= workingWidth
      ensures var fs := FragmentsOf(b);
        var page := workingWidth - enderWidth.value;
        var ps := SplitEvery(b.text, page);
        && |fs| == |ps| >= 1
        && (|fs| - 1) * page < |b.text| <= |fs| * page
        && Concat(ps) == b.text
        && (forall i :: 0 <= i < |fs| - 1 ==>
              fs[i].text == ps[i] + opts.hyphen && |ps[i]| == page && fs[i].width == workingWidth)
        && fs[|fs| - 1].text == ps[|fs| - 1] && fs[|fs| - 1].width == |ps[|fs| - 1]| <= page
        && (forall i :: 0 <= i < |fs| ==> !fs[i].space && fs[i].verbatim == b.verbatim)
    {
      var page := workingWidth - enderWidth.value;
      PagesSplit(b, 0);
      assert b.text[0..] == b.text;
      SplitEveryShape(b.text, page);
    }

    /** Overflow clip: one fragment, the first `workingWidth - |ellipsis|`
        graphemes and the ellipsis, exactly `workingWidth` wide.  With an
        ellipsis wider than the working width, the negative slice end counts
        from the end of the word, so all but the last few graphemes are kept
        while the fragment still claims `workingWidth`. */
    lemma ClipFragment(b: Brk)
      requires Valid() && opts.overflow == Clip
      requires !b.space && |b.text| >= workingWidth
      ensures |opts.ellipsis| <= workingWidth ==>
        && FragmentsOf(b) ==
             [Fragment(b.text[..workingWidth - |opts.ellipsis|] + opts.ellipsis, false, b.verbatim, workingWidth)]
        && |FragmentsOf(b)[0].text| == workingWidth
      ensures |opts.ellipsis| > workingWidth && |opts.ellipsis| - workingWidth <= |b.text| ==>
        FragmentsOf(b) ==
          [Fragment(b.text[..|b.text| - (|opts.ellipsis| - workingWidth)] + opts.ellipsis, false, b.verbatim, workingWidth)]
    {
    }

    /** Every fragment's text is exactly as wide as its annotation, and no
        word is wider than the working width: outside overflow visible for
        every chunk, and under it for a chunk that is not a word wider than
        the working width (visible passes such a word through whole). */
    lemma FragmentsFit(b: Brk)
      requires Valid() && PagesAdvance()
      requires opts.overflow == Visible ==> b.space || |b.text| <= workingWidth
      requires opts.overflow == Clip ==> |opts.ellipsis| <= workingWidth
      ensures forall f :: f in FragmentsOf(b) ==> |f.text| == f.width && (!f.space ==> f.width <= workingWidth)
    {
      if |b.text| >= workingWidth && !b.space {
        if opts.overflow == Anywhere {
          AnywhereSplits(b);
          var fs := FragmentsOf(b);
          forall f | f in fs ensures |f.text| == f.width && f.width <= workingWidth {
            var i :| 0 <= i < |fs| && fs[i] == f;
          }
        } else if opts.overflow == Clip {
          ClipFragment(b);
        }
      }
    }

    // -------------------------------------------------------------------
    // Properties of line packing

    /** The packing rules for one fragment.  A space only adds to the
        pending spaces.  A word at the start of a line is always placed, and
        the pending spaces are dropped.  Elsewhere it goes after the pending
        spaces exactly when they and it still fit in the width; otherwise
        the current line is emitted and a fresh indented line starts with
        the word. */
    lemma StepPlacement(st: PackState, f: Fragment)
      ensures var r := Step(st, f);
        f.space ==> r == st.(spaces := st.spaces + Seg(f), spLen := st.spLen + f.width)
      ensures var r := Step(st, f);
        !f.space ==> r.spaces == [] && r.spLen == 0 && EndsWith(r.line, Seg(f))
      ensures var r := Step(st, f);
        !f.space ==>
          (r.out == st.out + [st.line] <==> st.cur != indentWidth && st.cur + st.spLen + f.width > opts.width)
      ensures var r := Step(st, f);
        !f.space && st.cur == indentWidth ==>
          r.out == st.out && r.line == st.line + Seg(f) && r.cur == st.cur + f.width
      ensures var r := Step(st, f);
        !f.space && st.cur != indentWidth && st.cur + st.spLen + f.width <= opts.width ==>
          r.out == st.out && r.line == st.line + st.spaces + Seg(f) && r.cur == st.cur + st.spLen + f.width
      ensures var r := Step(st, f);
        !f.space && r.out != st.out ==> r.line == indent + Seg(f) && r.cur == indentWidth + f.width
    {
      if !f.space {
        var r := Step(st, f);
        if st.cur == indentWidth {
          EndsWithAppend(st.line, Seg(f));
        } else if st.cur + st.spLen + f.width <= opts.width {
          EndsWithAppend(st.line + st.spaces, Seg(f));
        } else {
          EndsWithAppend(indent, Seg(f));
        }
        assert |st.out + [st.line]| != |st.out|;
      }
    }

    lemma {:induction false} PackFromKeeps(inv: PackState -> bool, ok: Fragment -> bool,
                                           st: PackState, fs: seq<Fragment>, j: nat)
      requires forall s, f :: inv(s) && ok(f) ==> inv(Step(s, f))
      requires inv(st)
      requires forall k :: j <= k < |fs| ==> ok(fs[k])
      ensures inv(PackFrom(st, fs, j))
      decreases |fs| - j
    {
      if j < |fs| {
        PackFromKeeps(inv, ok, Step(st, fs[j]), fs, j + 1);
      }
    }

    lemma {:induction false} PackChunksKeeps(inv: PackState -> bool, ok: Fragment -> bool,
                                             st: PackState, bs: seq<Brk>, i: nat)
      requires Valid() && PagesAdvance()
      requires forall s, f :: inv(s) && ok(f) ==> inv(Step(s, f))
      requires inv(st)
      requires forall k, f :: i <= k < |bs| && f in FragmentsOf(bs[k]) ==> ok(f)
      ensures inv(PackChunks(st, bs, i))
      decreases |bs| - i
    {
      if i < |bs| {
        var fs := FragmentsOf(bs[i]);
        forall k | 0 <= k < |fs| ensures ok(fs[k]) {
          assert fs[k] in fs;
        }
        PackFromKeeps(inv, ok, st, fs, 0);
        PackChunksKeeps(inv, ok, PackFrom(st, fs, 0), bs, i + 1);
      }
    }

    /** The line being built is no wider than the column reached, and is
        empty while that column (an outdented first one) lies past the
        width; every line already emitted fits the width. */
    ghost predicate Measured(s: PackState) {
      && |s.line| <= s.cur
      && (s.cur > opts.width ==> s.line == [])
      && |s.spaces| == s.spLen
      && forall l :: l in s.out ==> |l| <= opts.width
    }

    /** No word chunk is wider than the working width: under overflow
        visible, the condition for every line to fit. */
    predicate WordsWithin(bs: seq<Brk>) {
      forall k :: 0 <= k < |bs| && !bs[k].space ==> |bs[k].text| <= workingWidth
    }

    ghost predicate FitsLine(f: Fragment) {
      |Seg(f)| == f.width && (!f.space ==> f.width <= workingWidth)
    }

    lemma StepMeasured(s: PackState, f: Fragment)
      requires Valid() && |indent| == indentWidth
      requires Measured(s) && FitsLine(f)
      ensures Measured(Step(s, f))
    {
    }

    /** Every line fits the width, when the first line is indented too or
        starts at a column that is not negative, the indent is as wide as it
        claims, escaping keeps widths, and no word overflows: under overflow
        visible, no word chunk is wider than the working width, and under
        clip, the ellipsis is no wider than the working width. */
    lemma LinesFitWidth(text: Text)
      requires Valid() && PagesAdvance()
      requires opts.indentFirst || firstIndent >= 0
      requires |indent| == indentWidth
      requires forall t :: |opts.escape(t)| == |t|
      requires opts.overflow == Visible ==> WordsWithin(ChunksOf(text))
      requires opts.overflow == Clip ==> |opts.ellipsis| <= workingWidth
      ensures forall l :: l in LinesOf(text) ==> |l| <= opts.width
    {
      if text != [] {
        var bs := ChunksOf(text);
        forall s, f | Measured(s) && FitsLine(f) ensures Measured(Step(s, f)) {
          StepMeasured(s, f);
        }
        forall k, f | 0 <= k < |bs| && f in FragmentsOf(bs[k]) ensures FitsLine(f) {
          FragmentsFit(bs[k]);
        }
        PackChunksKeeps((s: PackState) => Measured(s), (f: Fragment) => FitsLine(f), Start(), bs, 0);
      }
    }

    /** One fragment never takes the column past the width: a space leaves
        it alone, and a word no wider than the working width lands within
        the width wherever it is placed. */
    lemma StepKeepsColumn(st: PackState, f: Fragment)
      requires Valid() && st.cur <= opts.width
      requires !f.space ==> f.width <= workingWidth
      ensures Step(st, f).cur <= opts.width
    {
    }

    /** The column never passes the width, whatever the first line's
        column, when that column is within the width and no word overflows
        (under overflow visible, no word chunk is wider than the working
        width; under clip, whatever the ellipsis, since a clipped word is
        counted as exactly the working width): it is within the width after
        every chunk, and so at the end. */
    lemma ColumnBound(text: Text)
      requires Valid() && PagesAdvance()
      requires firstIndent <= opts.width
      requires opts.overflow == Visible ==> WordsWithin(ChunksOf(text))
      ensures forall i :: 0 <= i <= |ChunksOf(text)| ==>
        PackChunks(Start(), ChunksOf(text)[..i], 0).cur <= opts.width
      ensures PackChunks(Start(), ChunksOf(text), 0).cur <= opts.width
    {
      var bs := ChunksOf(text);
      var inv := (s: PackState) => s.cur <= opts.width;
      var ok := (f: Fragment) => !f.space ==> f.width <= workingWidth;
      forall s: PackState, f: Fragment | inv(s) && ok(f) ensures inv(Step(s, f)) {
        StepKeepsColumn(s, f);
      }
      forall i | 0 <= i <= |bs| ensures PackChunks(Start(), bs[..i], 0).cur <= opts.width {
        var ps := bs[..i];
        forall k, f | 0 <= k < |ps| && f in FragmentsOf(ps[k]) ensures ok(f) {
          if opts.overflow != Clip {
            FragmentsFit(ps[k]);
          } else {
            FragmentsShape(ps[k]);
          }
        }
        PackChunksKeeps(inv, ok, Start(), ps, 0);
      }
      assert bs[..|bs|] == bs;
    }

    /** The escaped texts of the words among the fragments of `bs`. */
    ghost function Words(bs: seq<Brk>): set<Text>
      requires Valid() && PagesAdvance()
    {
      set k, f | 0 <= k < |bs| && f in FragmentsOf(bs[k]) && !f.space :: Seg(f)
    }

    ghost predicate EndsInWord(l: Text, words: set<Text>) {
      l == InitialLine() || exists w :: w in words && EndsWith(l, w)
    }

    ghost predicate WordEnded(s: PackState, words: set<Text>) {
      && EndsInWord(s.line, words)
      && forall l :: l in s.out ==> EndsInWord(l, words)
    }

    /** Pending spaces reach a line only in front of a word: every line is
        the untouched first line or ends with a word of the input.  When the
        escape turns some word into the empty text, every line ends with that
        empty word and this says nothing; the wrapper then can end a line with
        spaces, since it commits the pending spaces in front of the empty
        word. */
    lemma NoTrailingSpaces(text: Text)
      requires Valid() && PagesAdvance()
      ensures forall l :: l in LinesOf(text) ==> EndsInWord(l, Words(ChunksOf(text)))
    {
      if text != [] {
        var bs := ChunksOf(text);
        var words := Words(bs);
        forall s: PackState, f: Fragment | WordEnded(s, words) && (f.space || Seg(f) in words)
          ensures WordEnded(Step(s, f), words)
        {
          StepPlacement(s, f);
        }
        PackChunksKeeps((s: PackState) => WordEnded(s, words), (f: Fragment) => f.space || Seg(f) in words, Start(), bs, 0);
      }
    }

    /** Input of nothing but space runs places nothing: no line at all, or,
        when the first line starts past the indent, that first line empty of
        words. */
    lemma WhitespaceOnly(text: Text)
      requires Valid() && PagesAdvance() && text != []
      requires forall b :: b in ChunksOf(text) ==> b.space
      ensures LinesOf(text) == if firstIndent > indentWidth then [InitialLine()] else []
    {
      var bs := ChunksOf(text);
      forall k, f | 0 <= k < |bs| && f in FragmentsOf(bs[k]) ensures f.space {
        FragmentsShape(bs[k]);
      }
      PackChunksKeeps((s: PackState) => s.out == [] && s.line == InitialLine() && s.cur == firstIndent,
                      (f: Fragment) => f.space, Start(), bs, 0);
    }

    /** Without an indented first line, a first word that does not fit after
        `firstCol` makes the wrapper emit an empty first line. */
    lemma FirstLineQuirk(text: Text)
      requires Valid() && PagesAdvance() && text != []
      requires !opts.indentFirst && opts.firstCol.Some? && opts.firstCol.value != indentWidth
      requires ChunksOf(text) != [] && !ChunksOf(text)[0].space
      requires opts.firstCol.value + FragmentsOf(ChunksOf(text)[0])[0].width > opts.width
      ensures |LinesOf(text)| >= 1 && LinesOf(text)[0] == []
    {
      var bs := ChunksOf(text);
      var fs := FragmentsOf(bs[0]);
      FragmentsShape(bs[0]);
      assert fs[0] in fs;
      var s1 := Step(Start(), fs[0]);
      assert s1.out == [[]];
      var keep := (s: PackState) => |s.out| >= 1 && s.out[0] == [];
      PackFromKeeps(keep, (f: Fragment) => true, s1, fs, 1);
      PackChunksKeeps(keep, (f: Fragment) => true, PackFrom(Start(), fs, 0), bs, 1);
    }

    /** A chunk narrower than the working width, packed at a column past
        the indent with room left for the pending spaces and itself, joins
        the line: its text follows the pending spaces (which a word commits),
        and no line is emitted. */
    lemma AppendChunk(st: PackState, b: Brk)
      requires Valid() && PagesAdvance() && forall t :: opts.escape(t) == t
      requires st.cur > indentWidth && st.spLen == |st.spaces| && st.cur - indentWidth == |st.line| - |indent|
      requires |b.text| < workingWidth
      requires (st.cur - indentWidth) + st.spLen + |b.text| <= workingWidth
      ensures var r := PackFrom(st, FragmentsOf(b), 0);
        && r.out == st.out && r.line + r.spaces == st.line + st.spaces + b.text
        && r.cur > indentWidth && r.spLen == |r.spaces| && r.cur - indentWidth == |r.line| - |indent|
        && (!b.space ==> r.spaces == [])
    {
      var f := Fragment(b.text, b.space, b.verbatim, |b.text|);
      assert FragmentsOf(b) == [f];
      assert PackFrom(st, [f], 0) == PackFrom(Step(st, f), [f], 1);
      assert Seg(f) == b.text;
      if !b.space {
        assert st.line + st.spaces + b.text + [] == st.line + st.spaces + b.text;
      }
    }

    /** The chunks from the `i`-th on, all narrower than the working width
        and together fitting in what is left of the line, are appended to it
        without a line being emitted; when the last of them is a word, no
        spaces are left pending. */
    lemma {:induction false} AppendChunks(st: PackState, bs: seq<Brk>, i: nat)
      requires Valid() && PagesAdvance() && forall t :: opts.escape(t) == t
      requires i <= |bs|
      requires st.cur > indentWidth && st.spLen == |st.spaces| && st.cur - indentWidth == |st.line| - |indent|
      requires forall k :: i <= k < |bs| ==> |bs[k].text| < workingWidth
      requires (st.cur - indentWidth) + st.spLen + |Texts(bs[i..])| <= workingWidth
      ensures var r := PackChunks(st, bs, i);
        && r.out == st.out && r.line + r.spaces == st.line + st.spaces + Texts(bs[i..])
        && r.cur > indentWidth
        && (i < |bs| && !bs[|bs| - 1].space ==> r.spaces == [])
      decreases |bs| - i
    {
      if i == |bs| {
        assert bs[i..] == [];
        assert st.line + st.spaces + [] == st.line + st.spaces;
      } else {
        var b := bs[i];
        assert Texts(bs[i..]) == b.text + Texts(bs[i + 1..]) by {
          assert bs[i..][1..] == bs[i + 1..];
        }
        AppendChunk(st, b);
        var s1 := PackFrom(st, FragmentsOf(b), 0);
        AppendChunks(s1, bs, i + 1);
        assert st.line + st.spaces + b.text + Texts(bs[i + 1..]) == st.line + st.spaces + Texts(bs[i..]);
      }
    }

    /** A chunk is no longer than all the chunks together. */
    lemma ChunkWithin(bs: seq<Brk>, k: nat)
      requires k < |bs|
      ensures |bs[k].text| <= |Texts(bs)|
    {
      assert bs == bs[..k] + bs[k..];
      TextsAppend(bs[..k], bs[k..]);
      assert bs[k..] == [bs[k]] + bs[k + 1..];
      TextsAppend([bs[k]], bs[k + 1..]);
    }

    /** A first word narrower than the working width starts an indented
        first line, with the packer's column past the indent. */
    lemma FirstWord(b: Brk)
      requires Valid() && PagesAdvance() && opts.indentFirst
      requires forall t :: opts.escape(t) == t
      requires !b.space && |b.text| < workingWidth
      ensures PackFrom(Start(), FragmentsOf(b), 0) == PackState([], indent + b.text, indentWidth + |b.text|, [], 0)
    {
      var f := Fragment(b.text, false, b.verbatim, |b.text|);
      assert FragmentsOf(b) == [f];
      assert PackFrom(Start(), [f], 0) == PackFrom(Step(Start(), f), [f], 1);
    }

    /** A first word and the chunks after it, all fitting on one indented
        line and ending with a word, are packed into exactly that line. */
    lemma PackedAsOneLine(b: Brk, rest: seq<Brk>)
      requires Valid() && PagesAdvance() && opts.indentFirst
      requires forall t :: opts.escape(t) == t
      requires !b.space && b.text != [] && |b.text| < workingWidth
      requires rest != [] ==> !rest[|rest| - 1].space
      requires forall k :: 0 <= k < |rest| ==> |rest[k].text| < workingWidth
      requires |b.text| + |Texts(rest)| <= workingWidth
      ensures Finish(PackChunks(Start(), [b] + rest, 0)) == [indent + b.text + Texts(rest)]
    {
      var bs := [b] + rest;
      FirstWord(b);
      var s1 := PackState([], indent + b.text, indentWidth + |b.text|, [], 0);
      assert bs[1..] == rest;
      assert PackChunks(Start(), bs, 0) == PackChunks(s1, bs, 1);
      AppendChunks(s1, bs, 1);
      var r := PackChunks(s1, bs, 1);
      assert r.spaces == [] by {
        if rest == [] {
          assert r == s1;
        }
      }
      assert r.line + [] == r.line;
      assert s1.line + s1.spaces + Texts(bs[1..]) == indent + b.text + Texts(rest);
    }

    /** Input that fits on one line comes back as that one line, indented.
        The input holds no newline and escaping leaves it alone; no chunk is
        as wide as the working width and the whole is no wider; it neither
        starts nor ends with spaces, and its first word is not empty. */
    lemma FitsOnOneLine(text: Text)
      requires Valid() && PagesAdvance() && opts.indentFirst
      requires forall t :: opts.escape(t) == t
      requires SplitLines(text) == [text]
      requires BreaksPartition(engines) && MatchesFrom(text, engines.urlMatches(text), 0, 0)
      requires |text| <= workingWidth
      requires forall k :: 0 <= k < |ChunksOf(text)| ==> |ChunksOf(text)[k].text| < workingWidth
      requires ChunksOf(text) != [] && !ChunksOf(text)[0].space && ChunksOf(text)[0].text != []
      requires !ChunksOf(text)[|ChunksOf(text)| - 1].space
      ensures LinesOf(text) == [indent + text]
    {
      var bs := ChunksOf(text);
      ChunksReassemble(text);
      assert Texts(bs) == text;
      assert bs == [bs[0]] + bs[1..];
      assert Texts(bs) == bs[0].text + Texts(bs[1..]);
      assert text != [];
      PackedAsOneLine(bs[0], bs[1..]);
      assert LinesOf(text) == Finish(PackChunks(Start(), [bs[0]] + bs[1..], 0));
      assert indent + bs[0].text + Texts(bs[1..]) == indent + text;
    }

    /** Input shorter than the working width, with no newline, nothing to
        escape and no spaces at either end, comes back as one indented line. */
    lemma ShortFitsOnOneLine(text: Text)
      requires Valid() && PagesAdvance() && opts.indentFirst
      requires forall t :: opts.escape(t) == t
      requires SplitLines(text) == [text]
      requires BreaksPartition(engines) && MatchesFrom(text, engines.urlMatches(text), 0, 0)
      requires |text| < workingWidth
      requires ChunksOf(text) != [] && !ChunksOf(text)[0].space && ChunksOf(text)[0].text != []
      requires !ChunksOf(text)[|ChunksOf(text)| - 1].space
      ensures LinesOf(text) == [indent + text]
    {
      var bs := ChunksOf(text);
      ChunksReassemble(text);
      assert Texts(bs) == text;
      forall k | 0 <= k < |bs| ensures |bs[k].text| < workingWidth {
        ChunkWithin(bs, k);
      }
      FitsOnOneLine(text);
    }

    // -------------------------------------------------------------------
    // Properties of chunking

    lemma BreaksOfTexts(t: Text)
      requires BreaksPartition(engines)
      ensures Texts(BreaksOf(t)) == t
      ensures forall c :: c in BreaksOf(t) ==> !c.verbatim
    {
      SpanBreaksTexts(engines.breaks(t));
    }

    lemma GapTexts(piece: Text, offset: nat, index: nat)
      requires BreaksPartition(engines) && offset <= index <= |piece|
      ensures Texts(Gap(piece, offset, index)) == piece[offset..index]
    {
      if index > offset {
        BreaksOfTexts(Slice(piece, offset, index));
      }
    }

    lemma TokenTexts(t: Text)
      requires BreaksPartition(engines)
      ensures Texts(Token(t)) == t
    {
      if engines.isUrl(t) {
        assert Texts(Token(t)) == t + Texts([]);
      } else {
        BreaksOfTexts(t);
      }
    }

    /** The chunks of one line, read in order, are the line from `offset` on:
        the text before each URL-looking token, the token, and the tail
        partition it. */
    lemma {:induction false} PieceChunksCover(piece: Text, ms: seq<UrlMatch>, k: nat, offset: nat)
      requires BreaksPartition(engines) && MatchesFrom(piece, ms, k, offset)
      ensures Texts(PieceChunks(piece, ms, k, offset)) == piece[offset..]
      decreases |ms| - k
    {
      if k >= |ms| {
        if offset < |piece| {
          BreaksOfTexts(piece[offset..]);
        }
      } else {
        var next := ms[k].index + |ms[k].text|;
        PieceChunksCover(piece, ms, k + 1, next);
        PieceCoverStep(piece, ms, k, offset);
      }
    }

    lemma PieceCoverStep(piece: Text, ms: seq<UrlMatch>, k: nat, offset: nat)
      requires BreaksPartition(engines) && MatchesFrom(piece, ms, k, offset) && k < |ms|
      requires Texts(PieceChunks(piece, ms, k + 1, ms[k].index + |ms[k].text|)) == piece[ms[k].index + |ms[k].text|..]
      ensures Texts(PieceChunks(piece, ms, k, offset)) == piece[offset..]
    {
      var m := ms[k];
      var next := m.index + |m.text|;
      var gap, token, rest := Gap(piece, offset, m.index), Token(m.text), PieceChunks(piece, ms, k + 1, next);
      PieceChunksStep(piece, ms, k, offset);
      TextsAppend(gap + token, rest);
      TextsAppend(gap, token);
      GapTexts(piece, offset, m.index);
      TokenTexts(m.text);
      CutThree(piece, offset, m.index, next);
      assert Texts(gap + token + rest) == piece[offset..m.index] + m.text + piece[next..];
    }

    lemma SeparatorTexts(i: nat)
      requires BreaksPartition(engines) && i > 0
      ensures Texts(Separator(i)) == opts.newlineReplacement
    {
      if opts.newlineReplacement != [] {
        BreaksOfTexts(opts.newlineReplacement);
      }
    }

    lemma {:induction false} PiecesCover(ps: seq<Text>, i: nat)
      requires BreaksPartition(engines) && i > 0
      requires forall p :: p in ps ==> MatchesFrom(p, engines.urlMatches(p), 0, 0)
      ensures Texts(PiecesChunks(ps, i)) == Interleave(ps, opts.newlineReplacement, i)
      decreases |ps| - i
    {
      if i < |ps| {
        PiecesCover(ps, i + 1);
        var own := PieceChunks(ps[i], engines.urlMatches(ps[i]), 0, 0);
        PieceChunksCover(ps[i], engines.urlMatches(ps[i]), 0, 0);
        SeparatorTexts(i);
        TextsAppend(Separator(i) + own, PiecesChunks(ps, i + 1));
        TextsAppend(Separator(i), own);
      }
    }

    /** The chunks reassemble the input with every newline sequence replaced
        by the newline replacement (nothing where that is empty). */
    lemma ChunksReassemble(text: Text)
      requires BreaksPartition(engines)
      requires forall p :: p in SplitLines(text) ==> MatchesFrom(p, engines.urlMatches(p), 0, 0)
      ensures Texts(ChunksOf(text)) == Join(SplitLines(text), opts.newlineReplacement)
    {
      var ps := SplitLines(text);
      if ps != [] {
        PiecesCover(ps, 1);
        var own := PieceChunks(ps[0], engines.urlMatches(ps[0]), 0, 0);
        PieceChunksCover(ps[0], engines.urlMatches(ps[0]), 0, 0);
        assert PiecesChunks(ps, 0) == [] + own + PiecesChunks(ps, 1);
        assert [] + own == own;
        assert ps[0][0..] == ps[0];
        TextsAppend(own, PiecesChunks(ps, 1));
        JoinFromLeft(ps, opts.newlineReplacement);
      }
    }

    /** Only a URL token is ever verbatim: the breaker's chunks never are. */
    lemma BreaksNotVerbatim(t: Text)
      ensures forall c :: c in BreaksOf(t) ==> !c.verbatim
    {
      SpanBreaksTexts(engines.breaks(t));
    }

    /** Every verbatim chunk of `cs` is a URL-looking token among `ms`
        from the `k`-th on that parses as a URL, and no space run. */
    ghost predicate VerbatimOnlyUrls(cs: seq<Brk>, ms: seq<UrlMatch>, k: nat) {
      forall c :: c in cs && c.verbatim ==>
        !c.space && engines.isUrl(c.text) && exists j :: k <= j < |ms| && ms[j].text == c.text
    }

    lemma GapNotVerbatim(piece: Text, offset: nat, index: nat)
      ensures forall c :: c in Gap(piece, offset, index) ==> !c.verbatim
    {
      if index > offset {
        BreaksNotVerbatim(Slice(piece, offset, index));
      }
    }

    /** A token's chunk is verbatim only when the token parses as a URL, and
        it then is the token itself. */
    lemma TokenVerbatim(t: Text)
      ensures forall c :: c in Token(t) && c.verbatim ==> c == Brk(t, false, true) && engines.isUrl(t)
    {
      if !engines.isUrl(t) {
        BreaksNotVerbatim(t);
      }
    }

    lemma VerbatimConcat(a: seq<Brk>, b: seq<Brk>, c: seq<Brk>, ms: seq<UrlMatch>, k: nat)
      requires VerbatimOnlyUrls(a, ms, k) && VerbatimOnlyUrls(b, ms, k) && VerbatimOnlyUrls(c, ms, k)
      ensures VerbatimOnlyUrls(a + b + c, ms, k)
    {
      forall x | x in a + b + c && x.verbatim
        ensures !x.space && engines.isUrl(x.text) && exists j :: k <= j < |ms| && ms[j].text == x.text
      {
        InThree(x, a, b, c);
      }
    }

    lemma VerbatimWiden(cs: seq<Brk>, ms: seq<UrlMatch>, k: nat)
      requires VerbatimOnlyUrls(cs, ms, k + 1)
      ensures VerbatimOnlyUrls(cs, ms, k)
    {
      forall x | x in cs && x.verbatim
        ensures exists j :: k <= j < |ms| && ms[j].text == x.text
      {
        var j :| k + 1 <= j < |ms| && ms[j].text == x.text;
      }
    }

    lemma TokenOnlyUrl(ms: seq<UrlMatch>, k: nat)
      requires k < |ms|
      ensures VerbatimOnlyUrls(Token(ms[k].text), ms, k)
    {
      TokenVerbatim(ms[k].text);
    }

    lemma PieceVerbatimStep(piece: Text, ms: seq<UrlMatch>, k: nat, offset: nat)
      requires k < |ms|
      requires VerbatimOnlyUrls(PieceChunks(piece, ms, k + 1, ms[k].index + |ms[k].text|), ms, k + 1)
      ensures VerbatimOnlyUrls(PieceChunks(piece, ms, k, offset), ms, k)
    {
      var m := ms[k];
      var gap, token, rest := Gap(piece, offset, m.index), Token(m.text), PieceChunks(piece, ms, k + 1, m.index + |m.text|);
      PieceChunksStep(piece, ms, k, offset);
      GapNotVerbatim(piece, offset, m.index);
      TokenOnlyUrl(ms, k);
      VerbatimWiden(rest, ms, k);
      VerbatimConcat(gap, token, rest, ms, k);
    }

    /** Every verbatim chunk of a line is one of its URL-looking tokens
        that parses as a URL, and no space run. */
    lemma {:induction false} PieceVerbatim(piece: Text, ms: seq<UrlMatch>, k: nat, offset: nat)
      ensures VerbatimOnlyUrls(PieceChunks(piece, ms, k, offset), ms, k)
      decreases |ms| - k
    {
      if k >= |ms| {
        if offset < |piece| {
          BreaksNotVerbatim(piece[offset..]);
        }
      } else {
        PieceVerbatim(piece, ms, k + 1, ms[k].index + |ms[k].text|);
        PieceVerbatimStep(piece, ms, k, offset);
      }
    }

    /** Every URL-looking token of a line that parses as a URL becomes one
        verbatim chunk holding exactly its text. */
    lemma {:induction false} PieceUrlsKept(piece: Text, ms: seq<UrlMatch>, k: nat, offset: nat)
      ensures forall j :: k <= j < |ms| && engines.isUrl(ms[j].text) ==>
        Brk(ms[j].text, false, true) in PieceChunks(piece, ms, k, offset)
      decreases |ms| - k
    {
      if k < |ms| {
        var m := ms[k];
        var next := m.index + |m.text|;
        PieceUrlsKept(piece, ms, k + 1, next);
        var gap, token, rest := Gap(piece, offset, m.index), Token(m.text), PieceChunks(piece, ms, k + 1, next);
        PieceChunksStep(piece, ms, k, offset);
        var all := PieceChunks(piece, ms, k, offset);
        assert all == gap + token + rest;
        forall j | k <= j < |ms| && engines.isUrl(ms[j].text)
          ensures Brk(ms[j].text, false, true) in all
        {
          var u := Brk(ms[j].text, false, true);
          if j == k {
            assert token == [u];
            InMiddle(u, gap, token, rest);
          } else {
            assert u in rest;
            InLast(u, gap, token, rest);
          }
        }
      }
    }

    lemma {:induction false} PiecesVerbatim(ps: seq<Text>, i: nat)
      ensures forall c :: c in PiecesChunks(ps, i) && c.verbatim ==>
        !c.space && engines.isUrl(c.text) &&
        exists p, m :: p in ps && m in engines.urlMatches(p) && m.text == c.text
      ensures forall j, m :: i <= j < |ps| && m in engines.urlMatches(ps[j]) && engines.isUrl(m.text) ==>
        Brk(m.text, false, true) in PiecesChunks(ps, i)
      decreases |ps| - i
    {
      if i < |ps| {
        PiecesVerbatim(ps, i + 1);
        var ms := engines.urlMatches(ps[i]);
        PieceVerbatim(ps[i], ms, 0, 0);
        PieceUrlsKept(ps[i], ms, 0, 0);
        if i > 0 && opts.newlineReplacement != [] {
          BreaksNotVerbatim(opts.newlineReplacement);
        }
        var own := PieceChunks(ps[i], ms, 0, 0);
        var all := PiecesChunks(ps, i);
        assert all == Separator(i) + own + PiecesChunks(ps, i + 1);
        forall c | c in own && c.verbatim
          ensures exists p, m :: p in ps && m in engines.urlMatches(p) && m.text == c.text
        {
          var j :| 0 <= j < |ms| && ms[j].text == c.text;
          assert ps[i] in ps && ms[j] in engines.urlMatches(ps[i]);
        }
        forall j, m | i <= j < |ps| && m in engines.urlMatches(ps[j]) && engines.isUrl(m.text)
          ensures Brk(m.text, false, true) in all
        {
          if j == i {
            var n :| 0 <= n < |ms| && ms[n] == m;
          }
        }
      }
    }

    /** A chunk is verbatim exactly when it is a URL-looking token of the
        input that parses as a URL: such a chunk is never a space run, and
        every such token becomes one, with exactly the matched text. */
    lemma VerbatimIffUrl(text: Text)
      ensures forall c :: c in ChunksOf(text) && c.verbatim ==>
        !c.space && engines.isUrl(c.text) &&
        exists p, m :: p in SplitLines(text) && m in engines.urlMatches(p) && m.text == c.text
      ensures forall p, m :: p in SplitLines(text) && m in engines.urlMatches(p) && engines.isUrl(m.text) ==>
        Brk(m.text, false, true) in ChunksOf(text)
    {
      var ps := SplitLines(text);
      PiecesVerbatim(ps, 0);
      forall p, m | p in ps && m in engines.urlMatches(p) && engines.isUrl(m.text)
        ensures Brk(m.text, false, true) in ChunksOf(text)
      {
        var j :| 0 <= j < |ps| && ps[j] == p;
      }
    }


    /** A line with no URL-looking token, left whole by the newline split,
        is chunked by the breaker alone. */
    lemma SingleLine(text: Text)
      requires text != [] && SplitLines(text) == [text] && engines.urlMatches(text) == []
      ensures ChunksOf(text) == BreaksOf(text)
    {
      assert text[0..] == text;
      assert PieceChunks(text, [], 0, 0) == (if 0 < |text| then BreaksOf(text) else []);
      assert PiecesChunks([text], 1) == [];
      assert Separator(0) == [];
      assert PiecesChunks([text], 0) == [] + PieceChunks(text, [], 0, 0) + [];
    }

    lemma SingleChunk(word: Text)
      requires word != [] && SplitLines(word) == [word] && engines.urlMatches(word) == []
      requires engines.breaks(word) == [Span(word, false)]
      ensures ChunksOf(word) == [Brk(word, false, false)]
    {
      SingleLine(word);
      assert [Span(word, false)][1..] == [];
      assert SpanBreaks([Span(word, false)]) == [Brk(word, false, false)] + SpanBreaks([]);
    }

    // -------------------------------------------------------------------
    // Worked cases

    /** Clipping "abcde" at width 4 keeps "abc" and the ellipsis. */
    lemma ClipExample()
      requires Valid() && opts.overflow == Clip && opts.width == 4 && opts.indent == Literal([])
      requires opts.ellipsis == ["\U{2026}"] && opts.indentFirst
      requires forall t :: opts.escape(t) == t
      requires SplitLines(["a", "b", "c", "d", "e"]) == [["a", "b", "c", "d", "e"]]
      requires engines.urlMatches(["a", "b", "c", "d", "e"]) == []
      requires engines.breaks(["a", "b", "c", "d", "e"]) == [Span(["a", "b", "c", "d", "e"], false)]
      ensures LinesOf(["a", "b", "c", "d", "e"]) == [["a", "b", "c", "\U{2026}"]]
    {
      var word: Text := ["a", "b", "c", "d", "e"];
      var b := Brk(word, false, false);
      SingleChunk(word);
      assert ChunksOf(word) == [b];
      ClipFragment(b);
      var f := Fragment(["a", "b", "c", "\U{2026}"], false, false, 4);
      assert word[..3] + opts.ellipsis == f.text;
      assert FragmentsOf(b) == [f];
      assert Start() == PackState([], [], 0, [], 0);
      var s1 := PackState([], f.text, 4, [], 0);
      assert PackFrom(Start(), [f], 0) == s1;
      assert PackChunks(s1, [b], 1) == s1;
      assert PackChunks(Start(), [b], 0) == s1;
    }

    /** Overflow anywhere cuts "abcde" at width 4 into "abc-" and "de". */
    lemma AnywhereExample()
      requires Valid() && PagesAdvance() && opts.overflow == Anywhere && opts.width == 4
      requires opts.indent == Literal([]) && opts.hyphen == ["-"] && opts.indentFirst
      requires forall t :: opts.escape(t) == t
      requires SplitLines(["a", "b", "c", "d", "e"]) == [["a", "b", "c", "d", "e"]]
      requires engines.urlMatches(["a", "b", "c", "d", "e"]) == []
      requires engines.breaks(["a", "b", "c", "d", "e"]) == [Span(["a", "b", "c", "d", "e"], false)]
      ensures LinesOf(["a", "b", "c", "d", "e"]) == [["a", "b", "c", "-"], ["d", "e"]]
    {
      var word: Text := ["a", "b", "c", "d", "e"];
      var b := Brk(word, false, false);
      SingleChunk(word);
      assert ChunksOf(word) == [b];
      var f1 := Fragment(["a", "b", "c", "-"], false, false, 4);
      var f2 := Fragment(["d", "e"], false, false, 2);
      AnywhereExamplePages();
      assert Start() == PackState([], [], 0, [], 0);
      var s1 := Step(Start(), f1);
      assert s1 == PackState([], f1.text, 4, [], 0);
      assert Step(s1, f2) == PackState([f1.text], f2.text, 2, [], 0);
      var s2 := Step(s1, f2);
      assert PackFrom(s1, [f1, f2], 1) == s2;
      assert PackFrom(Start(), [f1, f2], 0) == s2;
      assert PackChunks(s2, [b], 1) == s2;
      assert PackChunks(Start(), [b], 0) == s2;
    }

    lemma AnywhereExamplePages()
      requires Valid() && PagesAdvance() && opts.overflow == Anywhere && opts.width == 4
      requires opts.indent == Literal([]) && opts.hyphen == ["-"]
      ensures FragmentsOf(Brk(["a", "b", "c", "d", "e"], false, false)) ==
        [Fragment(["a", "b", "c", "-"], false, false, 4), Fragment(["d", "e"], false, false, 2)]
    {
      var word: Text := ["a", "b", "c", "d", "e"];
      var b := Brk(word, false, false);
      var f1 := Fragment(["a", "b", "c", "-"], false, false, 4);
      var f2 := Fragment(["d", "e"], false, false, 2);
      assert workingWidth == 4 && enderWidth == Some(1);
      assert PageAt(b, 3) == f2 by {
        SliceCases(word, 3, 6);
        assert word[3..] == f2.text;
      }
      assert PagesFrom(b, 3) == [f2] by {
        assert PagesFrom(b, 6) == [];
      }
      assert PageAt(b, 0) == f1 by {
        SliceCases(word, 0, 3);
        assert word[0..3] + opts.hyphen == f1.text;
      }
      assert PagesFrom(b, 0) == [f1] + PagesFrom(b, 3);
    }

    /** At width 4, "foo    bar" wraps to "foo" and "bar": the over-long
        space run collapses to one space, which is then lost at the break. */
    lemma SpaceRunExample()
      requires Valid() && opts.overflow == Visible && opts.width == 4 && opts.indent == Literal([])
      requires opts.newlineReplacement == [" "] && opts.indentFirst
      requires forall t :: opts.escape(t) == t
      requires SplitLines(["f", "o", "o", " ", " ", " ", " ", "b", "a", "r"]) ==
        [["f", "o", "o", " ", " ", " ", " ", "b", "a", "r"]]
      requires engines.urlMatches(["f", "o", "o", " ", " ", " ", " ", "b", "a", "r"]) == []
      requires engines.breaks(["f", "o", "o", " ", " ", " ", " ", "b", "a", "r"]) ==
        [Span(["f", "o", "o"], false), Span([" ", " ", " ", " "], true), Span(["b", "a", "r"], false)]
      ensures LinesOf(["f", "o", "o", " ", " ", " ", " ", "b", "a", "r"]) == [["f", "o", "o"], ["b", "a", "r"]]
    {
      var text: Text := ["f", "o", "o", " ", " ", " ", " ", "b", "a", "r"];
      var foo := Brk(["f", "o", "o"], false, false);
      var run := Brk([" ", " ", " ", " "], true, false);
      var bar := Brk(["b", "a", "r"], false, false);
      SingleLine(text);
      var ss := engines.breaks(text);
      assert ss[1..][1..][1..] == [];
      assert SpanBreaks(ss[1..][1..]) == [bar] + SpanBreaks(ss[1..][1..][1..]);
      assert SpanBreaks(ss[1..]) == [run] + SpanBreaks(ss[1..][1..]);
      assert SpanBreaks(ss) == [foo, run, bar];
      assert ChunksOf(text) == [foo, run, bar];
      var s1 := PackState([], foo.text, 3, [], 0);
      var s2 := PackState([], foo.text, 3, [" "], 1);
      var s3 := PackState([foo.text], bar.text, 3, [], 0);
      assert FragmentsOf(foo) == [Fragment(foo.text, false, false, 3)];
      assert FragmentsOf(run) == [Fragment([" "], true, false, 1)];
      assert FragmentsOf(bar) == [Fragment(bar.text, false, false, 3)];
      assert PackFrom(Start(), FragmentsOf(foo), 0) == s1;
      assert PackFrom(s1, FragmentsOf(run), 0) == s2;
      assert PackFrom(s2, FragmentsOf(bar), 0) == s3;
      assert PackChunks(s3, [foo, run, bar], 3) == s3;
      assert PackChunks(s2, [foo, run, bar], 2) == s3;
      assert PackChunks(s1, [foo, run, bar], 1) == s3;
    }

    /** At width 4 with an indent of two spaces, "ab bc" wraps to "  ab" and
        "  bc". */
    lemma IndentExample()
      requires Valid() && opts.overflow == Visible && opts.width == 4
      requires opts.indent == Columns(2) && opts.indentChar == [" "] && opts.indentFirst
      requires forall t :: opts.escape(t) == t
      requires SplitLines(["a", "b", " ", "b", "c"]) == [["a", "b", " ", "b", "c"]]
      requires engines.urlMatches(["a", "b", " ", "b", "c"]) == []
      requires engines.breaks(["a", "b", " ", "b", "c"]) ==
        [Span(["a", "b"], false), Span([" "], true), Span(["b", "c"], false)]
      ensures LinesOf(["a", "b", " ", "b", "c"]) == [[" ", " ", "a", "b"], [" ", " ", "b", "c"]]
    {
      var text: Text := ["a", "b", " ", "b", "c"];
      var ab := Brk(["a", "b"], false, false);
      var sp := Brk([" "], true, false);
      var bc := Brk(["b", "c"], false, false);
      SingleLine(text);
      var ss := engines.breaks(text);
      assert ss[1..][1..][1..] == [];
      assert SpanBreaks(ss[1..][1..]) == [bc] + SpanBreaks(ss[1..][1..][1..]);
      assert SpanBreaks(ss[1..]) == [sp] + SpanBreaks(ss[1..][1..]);
      assert SpanBreaks(ss) == [ab, sp, bc];
      assert ChunksOf(text) == [ab, sp, bc];
      assert indent == [" ", " "];
      var s1 := PackState([], [" ", " ", "a", "b"], 4, [], 0);
      var s2 := PackState([], [" ", " ", "a", "b"], 4, [" "], 1);
      var s3 := PackState([[" ", " ", "a", "b"]], [" ", " ", "b", "c"], 4, [], 0);
      assert FragmentsOf(ab) == [Fragment(ab.text, false, false, 2)];
      assert FragmentsOf(sp) == [Fragment([" "], true, false, 1)];
      assert FragmentsOf(bc) == [Fragment(bc.text, false, false, 2)];
      assert PackFrom(Start(), FragmentsOf(ab), 0) == s1;
      assert PackFrom(s1, FragmentsOf(sp), 0) == s2;
      assert PackFrom(s2, FragmentsOf(bc), 0) == s3;
      assert PackChunks(s3, [ab, sp, bc], 3) == s3;
      assert PackChunks(s2, [ab, sp, bc], 2) == s3;
      assert PackChunks(s1, [ab, sp, bc], 1) == s3;
    }
  }
}
