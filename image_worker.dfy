/** The image worker: a message handler that keeps one image and answers filter
    requests against it.

    The worker's module state is the flag `wasmReady`, the stored image
    `originalPixels` (absent until an `init` message supplies one) and its `width`
    and `height`. An `init` message replaces the image; `blur` and `edgeDetect`
    compute a new buffer from the stored image and post it; `resetOriginalImage`
    posts a copy of the stored image. Every filter reads the stored image itself:
    no filtered buffer is kept, so results never chain. Each message is handled
    to completion before the next one. */
module ImageWorker {
  import opened Pixels
  import EdgeDetection

  datatype Option<T> = None | Some(value: T)

  /** The message tags the handler dispatches on. */
  const INIT: string := "init"
  const BLUR: string := "blur"
  const EDGE_DETECT: string := "edgeDetect"
  const RESET_ORIGINAL_IMAGE: string := "resetOriginalImage"

  /** A message as it arrives: its `type` tag and the fields the handler reads.
      `pixelBytes` is absent when the message carries none (`null` or
      `undefined`); fields a tag does not use are ignored. */
  datatype Message = Message(kind: string, pixelBytes: Option<seq<byte>>, width: nat, height: nat, blurFactor: int)

  /** The image filter inside the wasm `library_gaussian_blur(pixels, width,
      height, blurFactor)`: the `image` crate's floating-point Gaussian blur of a
      width × height RGBA image. Its arithmetic is not part of this model; what is
      relied on is that the blurred image has width × height RGBA pixels. */
  type LibraryBlur = f: (seq<byte>, nat, nat, int) -> seq<byte>
    | forall px: seq<byte>, w: nat, h: nat, k: int :: |px| >= w * h * 4 ==> |f(px, w, h, k)| == w * h * 4
    witness (px: seq<byte>, w: nat, h: nat, k: int) => seq(w * h * 4, i => 0)

  /** `ImageBuffer::from_raw(width, height, bytes)` accepts the bytes only when they
      hold every RGBA pixel; otherwise `library_gaussian_blur` panics on `expect`. */
  predicate FitsImage(px: seq<byte>, w: nat, h: nat)
  {
    |px| >= w * h * 4
  }

  /** The worker's module state, as a value. */
  datatype WorkerState = WorkerState(wasmReady: bool, originalPixels: Option<seq<byte>>, width: nat, height: nat)

  /** The state a worker starts in: no wasm, no image, dimensions 0. */
  const Start := WorkerState(false, None, 0, 0)

  /** The part of the state that describes the stored image. */
  datatype Image = Image(pixels: Option<seq<byte>>, width: nat, height: nat)

  function ImageOf(s: WorkerState): Image
  {
    Image(s.originalPixels, s.width, s.height)
  }

  // ---------------------------------------------------------------------------
  // What each request posts, as a function of the state

  /** `performBlur`: nothing without an image, nothing when the wasm call panics
      (the buffer does not hold width × height pixels), else the blurred image. */
  function BlurResponse(s: WorkerState, blurFactor: int, blur: LibraryBlur): (r: Option<seq<byte>>)
    ensures r.Some? <==> s.originalPixels.Some? && FitsImage(s.originalPixels.value, s.width, s.height)
    ensures r.Some? ==> |r.value| == s.width * s.height * 4
  {
    match s.originalPixels
    case None => None
    case Some(px) =>
      if FitsImage(px, s.width, s.height) then
        Some(blur(px, s.width, s.height, blurFactor))
      else
        None
  }

  /** `performEdgeDetect`: nothing without an image, nothing when the wasm call
      panics (a dimension below 2, or a buffer missing a red, green or blue byte),
      else the edge image. */
  function EdgeResponse(s: WorkerState): (r: Option<seq<byte>>)
    ensures r.Some? <==> s.originalPixels.Some? && 2 <= s.width && 2 <= s.height
                         && |s.originalPixels.value| + 1 >= s.width * s.height * 4
    ensures r.Some? ==> |r.value| == (s.width - 2) * (s.height - 2) * 4
  {
    match s.originalPixels
    case None => None
    case Some(px) =>
      if EdgeDetection.CanDetectEdges(px, s.width, s.height) then
        Some(EdgeDetection.EdgeImage(px, s.width, s.height))
      else
        None
  }

  /** `resetOriginalImage`: nothing without an image, else a copy of it. */
  function ResetResponse(s: WorkerState): Option<seq<byte>>
  {
    s.originalPixels
  }

  /** The whole handler on one message: the new state and the buffer posted, if any.
      The four tests are independent `if`s in the handler; since the tags differ at
      most one of them fires. */
  function Step(s: WorkerState, msg: Message, blur: LibraryBlur): (r: (WorkerState, Option<seq<byte>>))
    ensures msg.kind != INIT ==> ImageOf(r.0) == ImageOf(s)
    ensures r.1.Some? ==> msg.kind in {BLUR, EDGE_DETECT, RESET_ORIGINAL_IMAGE} && s.originalPixels.Some?
  {
    if msg.kind == INIT then
      (WorkerState(s.wasmReady, msg.pixelBytes, msg.width, msg.height), None)
    else if msg.kind == BLUR then
      (s.(wasmReady := true), BlurResponse(s, msg.blurFactor, blur))
    else if msg.kind == EDGE_DETECT then
      (s.(wasmReady := true), EdgeResponse(s))
    else if msg.kind == RESET_ORIGINAL_IMAGE then
      (s, ResetResponse(s))
    else
      (s, None)
  }

  /** A sequence of messages handled in arrival order: the final state and what each
      message posted. */
  function Run(s: WorkerState, msgs: seq<Message>, blur: LibraryBlur): (r: (WorkerState, seq<Option<seq<byte>>>))
    ensures |r.1| == |msgs|
    decreases |msgs|
  {
    if msgs == [] then
      (s, [])
    else
      var (s', out) := Step(s, msgs[0], blur);
      var (final, outs) := Run(s', msgs[1..], blur);
      (final, [out] + outs)
  }

  // ---------------------------------------------------------------------------
  // Properties of the handler

  /** `init` stores the message's pixels and dimensions as they are, whatever the
      length of the buffer, and posts nothing. */
  lemma InitStoresImage(s: WorkerState, msg: Message, blur: LibraryBlur)
    requires msg.kind == INIT
    ensures var (s', out) := Step(s, msg, blur);
      out == None && ImageOf(s') == Image(msg.pixelBytes, msg.width, msg.height) && s'.wasmReady == s.wasmReady
  {
  }

  /** With no image stored, every message but `init` posts nothing and leaves the
      stored image as it is. */
  lemma NoImageNoResponse(s: WorkerState, msg: Message, blur: LibraryBlur)
    requires s.originalPixels == None && msg.kind != INIT
    ensures Step(s, msg, blur).1 == None
    ensures ImageOf(Step(s, msg, blur).0) == ImageOf(s)
  {
  }

  /** Only `init` changes the stored image: filter and reset requests leave it
      alone, and only a filter request may change anything at all (it loads wasm). */
  lemma OnlyInitChangesImage(s: WorkerState, msg: Message, blur: LibraryBlur)
    requires msg.kind != INIT
    ensures ImageOf(Step(s, msg, blur).0) == ImageOf(s)
    ensures msg.kind != BLUR && msg.kind != EDGE_DETECT ==> Step(s, msg, blur).0 == s
  {
  }

  /** A message with none of the four tags is ignored: no state change, no output. */
  lemma UnknownMessageIgnored(s: WorkerState, msg: Message, blur: LibraryBlur)
    requires msg.kind !in {INIT, BLUR, EDGE_DETECT, RESET_ORIGINAL_IMAGE}
    ensures Step(s, msg, blur) == (s, None)
  {
  }

  /** `resetOriginalImage` posts a buffer byte for byte equal to the stored image,
      exactly when one is stored. */
  lemma ResetPostsOriginal(s: WorkerState, msg: Message, blur: LibraryBlur)
    requires msg.kind == RESET_ORIGINAL_IMAGE
    ensures Step(s, msg, blur).1.Some? <==> s.originalPixels.Some?
    ensures s.originalPixels.Some? ==> Step(s, msg, blur).1.value == s.originalPixels.value
  {
  }

  /** Right after `init` with pixels, `resetOriginalImage` gives those pixels back. */
  lemma InitThenResetRoundTrip(s: WorkerState, px: seq<byte>, w: nat, h: nat, k: int, blur: LibraryBlur)
    ensures var init := Message(INIT, Some(px), w, h, k);
      var reset := Message(RESET_ORIGINAL_IMAGE, None, 0, 0, 0);
      Run(s, [init, reset], blur).1 == [None, Some(px)]
  {
    var init := Message(INIT, Some(px), w, h, k);
    var reset := Message(RESET_ORIGINAL_IMAGE, None, 0, 0, 0);
    var s1 := Step(s, init, blur).0;
    assert Run(s1, [reset], blur).1 == [Some(px)];
    assert [init, reset][1..] == [reset];
  }

  /** An `edgeDetect` response is the edge image of the stored pixels: opaque grey
      RGBA of (width - 2) × (height - 2) pixels, not width × height. */
  lemma EdgeDetectResponseSize(s: WorkerState, msg: Message, blur: LibraryBlur)
    requires msg.kind == EDGE_DETECT && Step(s, msg, blur).1.Some?
    ensures s.originalPixels.Some? && 2 <= s.width && 2 <= s.height
    ensures |Step(s, msg, blur).1.value| == (s.width - 2) * (s.height - 2) * 4
    ensures forall p :: 0 <= p < (s.width - 2) * (s.height - 2) ==>
      var out := Step(s, msg, blur).1.value;
      out[4 * p] == out[4 * p + 1] == out[4 * p + 2] && out[4 * p + 3] == 255
  {
    var px, w, h := s.originalPixels.value, s.width, s.height;
    assert EdgeDetection.CanDetectEdges(px, w, h);
    var out := EdgeDetection.EdgeImage(px, w, h);
    assert Step(s, msg, blur).1 == Some(out);
    var mags := EdgeDetection.Magnitudes(EdgeDetection.Greyscale(px, w, h), w, h);
    EdgeDetection.EdgeImageIsOpaqueGrey(px, w, h);
    forall p | 0 <= p < (w - 2) * (h - 2)
      ensures out[4 * p] == out[4 * p + 1] == out[4 * p + 2] && out[4 * p + 3] == 255
    {
      assert EdgeDetection.GreyPixel(out, mags, p);
    }
  }

  /** `blur` posts exactly when an image is stored whose buffer holds width ×
      height RGBA pixels, and then a buffer of that many pixels. */
  lemma BlurResponseSize(s: WorkerState, msg: Message, blur: LibraryBlur)
    requires msg.kind == BLUR
    ensures Step(s, msg, blur).1.Some? <==>
      s.originalPixels.Some? && |s.originalPixels.value| >= s.width * s.height * 4
    ensures Step(s, msg, blur).1.Some? ==> |Step(s, msg, blur).1.value| == s.width * s.height * 4
  {
  }

  /** `edgeDetect` posts exactly when an image is stored, both dimensions are at
      least 2, and the buffer holds the red, green and blue bytes of every pixel
      (the alpha byte of the last pixel is never read). */
  lemma EdgeDetectPostsWhen(s: WorkerState, msg: Message, blur: LibraryBlur)
    requires msg.kind == EDGE_DETECT
    ensures Step(s, msg, blur).1.Some? <==>
      s.originalPixels.Some? && 2 <= s.width && 2 <= s.height
      && |s.originalPixels.value| >= s.width * s.height * 4 - 1
  {
  }

  /** What a message posts depends on the stored image only, not on whether wasm
      has been loaded yet. */
  lemma ResponseIgnoresWasmReady(s: WorkerState, t: WorkerState, msg: Message, blur: LibraryBlur)
    requires ImageOf(s) == ImageOf(t)
    ensures Step(s, msg, blur).1 == Step(t, msg, blur).1
    ensures ImageOf(Step(s, msg, blur).0) == ImageOf(Step(t, msg, blur).0)
  {
  }

  /** Filter results never chain: along any run of messages without `init`, the
      stored image stays the same and each message posts exactly what it would have
      posted as the first message of the run. */
  lemma {:induction false} NoChaining(s: WorkerState, msgs: seq<Message>, blur: LibraryBlur)
    requires forall i :: 0 <= i < |msgs| ==> msgs[i].kind != INIT
    ensures ImageOf(Run(s, msgs, blur).0) == ImageOf(s)
    ensures forall i :: 0 <= i < |msgs| ==> Run(s, msgs, blur).1[i] == Step(s, msgs[i], blur).1
    decreases |msgs|
  {
    if msgs != [] {
      var s1 := Step(s, msgs[0], blur).0;
      OnlyInitChangesImage(s, msgs[0], blur);
      NoChaining(s1, msgs[1..], blur);
      forall i | 1 <= i < |msgs|
        ensures Run(s, msgs, blur).1[i] == Step(s, msgs[i], blur).1
      {
        assert msgs[1..][i - 1] == msgs[i];
        ResponseIgnoresWasmReady(s1, s, msgs[i], blur);
      }
    }
  }

  /** Two `edgeDetect` requests in a row post the same buffer. */
  lemma EdgeDetectTwiceSame(s: WorkerState, blur: LibraryBlur)
    ensures var e := Message(EDGE_DETECT, None, 0, 0, 0);
      var outs := Run(s, [e, e], blur).1;
      outs[0] == outs[1] == EdgeResponse(s)
  {
    var e := Message(EDGE_DETECT, None, 0, 0, 0);
    NoChaining(s, [e, e], blur);
  }

  /** A blur request does not change what a following `edgeDetect` sees: the edges
      are those of the stored image, not of the blurred one. */
  lemma EdgeDetectAfterBlurSeesOriginal(s: WorkerState, k: int, blur: LibraryBlur)
    ensures var b := Message(BLUR, None, 0, 0, k);
      var e := Message(EDGE_DETECT, None, 0, 0, 0);
      Run(s, [b, e], blur).1[1] == EdgeResponse(s)
  {
    var b := Message(BLUR, None, 0, 0, k);
    var e := Message(EDGE_DETECT, None, 0, 0, 0);
    NoChaining(s, [b, e], blur);
  }

  // ---------------------------------------------------------------------------
  // The worker, as the handler runs it

  class Worker {
    var wasmReady: bool
    var originalPixels: Option<seq<byte>>
    var width: nat
    var height: nat
    /** The wasm Gaussian blur the worker calls. */
    const libraryGaussianBlur: LibraryBlur

    /** The worker's state as a value. */
    function State(): WorkerState
      reads this
    {
      WorkerState(wasmReady, originalPixels, width, height)
    }

    /** A fresh worker: wasm not loaded, no image, dimensions 0. */
    constructor (libraryGaussianBlur: LibraryBlur)
      ensures State() == Start
      ensures this.libraryGaussianBlur == libraryGaussianBlur
    {
      wasmReady := false;
      originalPixels := None;
      width := 0;
      height := 0;
      this.libraryGaussianBlur := libraryGaussianBlur;
    }

    /** `initWasm`: load the wasm module once. The loading itself is external. */
    method InitWasm()
      modifies this`wasmReady
      ensures wasmReady
    {
      if !wasmReady {
        wasmReady := true;
      }
    }

    /** `performBlur`: blur the stored image, if any, and post the result. A call
        the wasm code would abort on posts nothing. */
    method PerformBlur(blurFactor: int) returns (posted: Option<seq<byte>>)
      modifies this`wasmReady
      ensures State() == old(State()).(wasmReady := true)
      ensures posted == BlurResponse(old(State()), blurFactor, libraryGaussianBlur)
    {
      InitWasm();
      if originalPixels == None {
        return None;
      }
      if !FitsImage(originalPixels.value, width, height) {
        return None;
      }
      var blurredPixelBytes := libraryGaussianBlur(originalPixels.value, width, height, blurFactor);
      posted := Some(blurredPixelBytes);
    }

    /** `performEdgeDetect`: run Sobel edge detection on the stored image, if any,
        and post the result. A call the wasm code would abort on posts nothing. */
    method PerformEdgeDetect() returns (posted: Option<seq<byte>>)
      modifies this`wasmReady
      ensures State() == old(State()).(wasmReady := true)
      ensures posted == EdgeResponse(old(State()))
    {
      InitWasm();
      if originalPixels == None {
        return None;
      }
      if !EdgeDetection.CanDetectEdges(originalPixels.value, width, height) {
        return None;
      }
      var outputBytes := EdgeDetection.SobelEdgeDetect(originalPixels.value, width, height);
      posted := Some(outputBytes);
    }

    /** `resetOriginalImage`: post a copy of the stored image, if any. */
    method ResetOriginalImage() returns (posted: Option<seq<byte>>)
      ensures posted == ResetResponse(State())
    {
      if originalPixels == None {
        return None;
      }
      var originalCopy := originalPixels.value;
      posted := Some(originalCopy);
    }

    /** `onmessage`: dispatch one message on its tag. Returns the buffer posted back,
        if any. */
    method Handle(msg: Message) returns (posted: Option<seq<byte>>)
      modifies this`wasmReady, this`originalPixels, this`width, this`height
      ensures (State(), posted) == Step(old(State()), msg, libraryGaussianBlur)
    {
      posted := None;
      if msg.kind == INIT {
        originalPixels := msg.pixelBytes;
        width := msg.width;
        height := msg.height;
      }
      if msg.kind == BLUR {
        posted := PerformBlur(msg.blurFactor);
      }
      if msg.kind == EDGE_DETECT {
        posted := PerformEdgeDetect();
      }
      if msg.kind == RESET_ORIGINAL_IMAGE {
        posted := ResetOriginalImage();
      }
    }
  }
}
