/** The per-texture loading state machine of StelTexture and the texture
    manager's GPU memory bookkeeping. The network, the loader thread pool and
    the GL context are outside the model: their answers arrive as
    parameters (a reply's outcome, a loader's result, a GLContext). */
module TextureState {
  import opened Optional
  import opened TextureData
  import opened TextureMemory
  import opened Text

  /** MAX_LOAD_NANOSEC_PER_FRAME: 1e9 / 120 nanoseconds, truncated. */
  const MaxLoadNanosecPerFrame: int := 8333333

  /** What an asynchronous loader decodes: a local file, or the body of a
      network reply; both with the texture's decimation factor. */
  datatype LoadJob =
    | FromPath(path: string, decimation: int)
    | FromData(bytes: seq<bv8>, decimation: int)

  /** The loader's future: still running, or finished with its result. */
  datatype Future =
    | Running(job: LoadJob)
    | Finished(job: LoadJob, result: GLData)

  /** A network request in flight. */
  datatype Reply = Reply(url: string)

  /** What a network reply reports once it has finished: the URL it
      answered (as the network layer normalised or redirected it), whether
      it succeeded, the bytes it had available, its body and its error text. */
  datatype ReplyOutcome = ReplyOutcome(url: string, noError: bool, bytesAvailable: int, body: seq<bv8>, errorString: string)

  /** What the GL context answers during an upload: GL_MAX_TEXTURE_SIZE, the
      name glGenTextures hands out, the hardware's maximum anisotropy, and the
      configured anisotropic filtering level. */
  datatype GLContext = GLContext(maxTextureSize: int, freshId: nat, maxAnisotropy: int, desiredAnisotropy: int)

  /** The fields of a texture that its operations change. */
  datatype TextureFields = TextureFields(
    loader: Option<Future>,
    networkReply: Option<Reply>,
    id: nat,
    glSize: nat,
    errorOccured: bool,
    errorMessage: string,
    width: int,
    height: int,
    alphaChannel: bool,
    finishedSignals: seq<bool>)

  const UnknownError := "Unknown error"

  /** The error text of a reply aborted before it finished
      (QNetworkReply::OperationCanceledError). */
  const OperationCanceled := "Operation canceled"

  /** The error reported for a successful reply with an empty body; it
      ends with the reply's URL. */
  function EmptyResultMessage(url: string): (message: string)
    ensures |message| == 31 + |url| && message[31..] == url
  {
    "Empty result received for URL: " + url
  }

  /** The error reported for data larger than GL_MAX_TEXTURE_SIZE. */
  function TooLargeMessage(width: int, height: int, maxSize: int): string
  {
    "Texture size (" + IntToString(width) + "/" + IntToString(height) +
    ") is larger than GL_MAX_TEXTURE_SIZE (" + IntToString(maxSize) + ")!"
  }

  /** The frame budget is 1e9 / 120 nanoseconds, rounded down as the
      integer conversion does. */
  lemma FrameBudget()
    ensures MaxLoadNanosecPerFrame * 120 <= 1000000000 < (MaxLoadNanosecPerFrame + 1) * 120
  {
  }

  /** The switch on the upload format in glLoad: the texture has an alpha
      channel exactly for RGBA and luminance-alpha data. */
  function HasAlpha(format: Option<Format>): (b: bool)
    ensures b <==> format == Some(RGBA) || format == Some(LuminanceAlpha)
  {
    match format
    case Some(RGBA) => true
    case Some(LuminanceAlpha) => true
    case _ => false
  }

  /** A path that is fetched over the network rather than read from disk. */
  predicate IsRemote(path: string)
  {
    StartsWithIgnoringCase(path, "http") || StartsWithIgnoringCase(path, "file://")
  }

  /** Any case of `http` (so `https` too) and of `file://` is remote; a
      relative path, or one that only contains `http`, is local. */
  lemma RemotePaths()
    ensures IsRemote("HTTPS://a")
    ensures IsRemote("File:///a")
    ensures !IsRemote("a/http")
    ensures !IsRemote("htt")
  {
  }

  /** The data an upload receives from a loader: its result if it has
      finished, otherwise what it produces once waited for. */
  function LoaderResult(future: Future, decoded: GLData): GLData
  {
    if future.Finished? then future.result else decoded
  }

  /** The part of StelTextureMgr the textures update: the running total of
      GPU memory and the map from GL texture names to textures. */
  class TextureMgr {
    var glMemoryUsage: int
    var idMap: map<nat, Texture>
    /** The charge recorded for each registered name. */
    ghost var sizes: map<nat, nat>
    /** The charges of entries that a later upload under the same name
        replaced in the map: they stay in the total, but no name leads to
        them any more. */
    ghost var orphaned: nat

    /** The running total is the sum of the charges of the registered
        textures plus the orphaned charges. */
    ghost predicate Valid()
      reads this
    {
      sizes.Keys == idMap.Keys && glMemoryUsage == Total(sizes) + orphaned
    }

    constructor ()
      ensures Valid() && glMemoryUsage == 0 && idMap == map[] && orphaned == 0
    {
      glMemoryUsage := 0;
      idMap := map[];
      sizes := map[];
      orphaned := 0;
    }

    /** Charges a newly uploaded texture's size to the total and registers
        it under its name, replacing any entry still registered under that
        name, whose charge then stays in the total as orphaned. */
    method Add(id: nat, size: nat, texture: Texture)
      requires Valid()
      modifies this
      ensures Valid()
      ensures glMemoryUsage == old(glMemoryUsage) + size
      ensures idMap == old(idMap)[id := texture]
      ensures sizes == old(sizes)[id := size]
      ensures orphaned == old(orphaned) + if id in old(sizes) then old(sizes)[id] else 0
    {
      if id in sizes {
        TotalReplace(sizes, id, size);
        orphaned := orphaned + sizes[id];
      } else {
        TotalInsert(sizes, id, size);
      }
      glMemoryUsage := glMemoryUsage + size;
      idMap := idMap[id := texture];
      sizes := sizes[id := size];
    }

    /** Takes a deleted texture's charge off the total and unregisters its
        name. */
    method Remove(id: nat, size: nat)
      requires Valid() && id in sizes && sizes[id] == size
      modifies this
      ensures Valid()
      ensures glMemoryUsage == old(glMemoryUsage) - size
      ensures idMap == old(idMap) - {id}
      ensures sizes == old(sizes) - {id}
      ensures orphaned == old(orphaned)
    {
      TotalRemove(sizes, id);
      glMemoryUsage := glMemoryUsage - size;
      idMap := idMap - {id};
      sizes := sizes - {id};
    }
  }

  class Texture {
    const fullPath: string
    const decimation: int
    const generateMipmaps: bool
    /** The shared texture manager; null once it has been deleted. */
    const mgr: TextureMgr?

    var loader: Option<Future>
    var networkReply: Option<Reply>
    var id: nat
    var glSize: nat
    var errorOccured: bool
    var errorMessage: string
    var width: int
    var height: int
    var alphaChannel: bool
    /** The argument of every loadingProcessFinished signal sent, in order
        (true reports a failure). */
    var finishedSignals: seq<bool>

    function Fields(): TextureFields
      reads this
    {
      TextureFields(loader, networkReply, id, glSize, errorOccured, errorMessage,
                    width, height, alphaChannel, finishedSignals)
    }

    /** A loader and a network request are never both in progress; a loader
        exists only while there is a manager; an uploaded texture is
        registered with the manager under its name, charged its glSize. */
    ghost predicate Valid()
      reads this, mgr
    {
      !(loader.Some? && networkReply.Some?) &&
      (loader.Some? ==> mgr != null) &&
      (mgr != null ==>
        mgr.Valid() &&
        (id != 0 ==> id in mgr.sizes && mgr.sizes[id] == glSize && mgr.idMap[id] == this))
    }

    predicate LoaderFinished()
      reads this
    {
      loader.Some? && loader.value.Finished?
    }

    /** The fields after load(): a remote path with nothing in progress
        starts a network request; otherwise, with nothing in progress, a
        loader is started on the path (when there is a manager). */
    function AfterLoad(s: TextureFields): TextureFields
    {
      if s.loader.None? && s.networkReply.None? && IsRemote(fullPath) then
        s.(networkReply := Some(Reply(fullPath)))
      else if s.networkReply.Some? || s.loader.Some? then s
      else if mgr != null then s.(loader := Some(Running(FromPath(fullPath, decimation))))
      else s
    }

    /** glLoad uploads the data: there is a manager, the data is not empty
        and fits in the maximum texture size. */
    predicate UploadSucceeds(data: GLData, ctx: GLContext)
    {
      mgr != null && |data.data| > 0 &&
      data.width <= ctx.maxTextureSize && data.height <= ctx.maxTextureSize
    }

    /** The fields after glLoad(data). */
    function AfterUpload(s: TextureFields, data: GLData, ctx: GLContext): TextureFields
    {
      if mgr == null then s
      else if |data.data| == 0 then
        s.(errorOccured := true,
           errorMessage := if data.loaderError == "" then UnknownError else data.loaderError,
           finishedSignals := s.finishedSignals + [true])
      else if ctx.maxTextureSize < data.width || ctx.maxTextureSize < data.height then
        s.(width := data.width, height := data.height,
           errorOccured := true,
           errorMessage := TooLargeMessage(data.width, data.height, ctx.maxTextureSize),
           finishedSignals := s.finishedSignals + [true])
      else
        s.(width := data.width, height := data.height,
           id := ctx.freshId,
           glSize := GlSize(|data.data|, generateMipmaps, ctx.maxAnisotropy, ctx.desiredAnisotropy),
           alphaChannel := HasAlpha(data.format),
           finishedSignals := s.finishedSignals + [false])
    }

    /** What glGenTextures promises: a nonzero name. The name is not in use
        by GL, but the manager may still map it, when an earlier texture
        under that name was found invalid on deletion and kept registered. */
    predicate FreshName(ctx: GLContext)
    {
      ctx.freshId != 0
    }

    constructor (path: string, decimation: int, generateMipmaps: bool, mgr: TextureMgr?)
      requires mgr != null ==> mgr.Valid()
      ensures Valid()
      ensures fullPath == path && this.decimation == decimation
      ensures this.generateMipmaps == generateMipmaps && this.mgr == mgr
      ensures Fields() == TextureFields(None, None, 0, 0, false, "", -1, -1, false, [])
    {
      fullPath := path;
      this.decimation := decimation;
      this.generateMipmaps := generateMipmaps;
      this.mgr := mgr;
      loader := None;
      networkReply := None;
      id := 0;
      glSize := 0;
      errorOccured := false;
      errorMessage := "";
      width := -1;
      height := -1;
      alphaChannel := false;
      finishedSignals := [];
    }

    /** reportError: records the failure and signals that loading finished
        with an error. */
    method ReportError(message: string)
      requires Valid()
      modifies this
      ensures Valid()
      ensures Fields() == old(Fields()).(errorOccured := true, errorMessage := message,
                                         finishedSignals := old(finishedSignals) + [true])
    {
      errorOccured := true;
      errorMessage := message;
      finishedSignals := finishedSignals + [true];
    }

    /** startAsyncLoader: starts a loader on the job, unless the manager is gone. */
    method StartAsyncLoader(job: LoadJob)
      requires loader.None?
      modifies this
      ensures Fields() == old(Fields()).(loader := if mgr != null then Some(Running(job)) else None)
    {
      if mgr == null {
        return;
      }
      loader := Some(Running(job));
    }

    /** The loader's thread finishes decoding. */
    method DecodeCompletes(result: GLData)
      requires Valid() && loader.Some? && loader.value.Running?
      modifies this
      ensures Valid()
      ensures Fields() == old(Fields()).(loader := Some(Finished(old(loader.value.job), result)))
    {
      loader := Some(Finished(loader.value.job, result));
    }

    /** load: starts whatever step comes next and reports whether the
        loader has finished, i.e. whether the data is ready for upload. */
    method Load() returns (ready: bool)
      requires Valid()
      modifies this
      ensures Valid()
      ensures ready == old(LoaderFinished())
      ensures Fields() == AfterLoad(old(Fields()))
    {
      if loader.None? && networkReply.None? && IsRemote(fullPath) {
        networkReply := Some(Reply(fullPath));
        return false;
      }
      if networkReply.Some? {
        return false;
      }
      if loader.None? {
        StartAsyncLoader(FromPath(fullPath, decimation));
        return false;
      }
      return loader.value.Finished?;
    }

    /** onNetworkReply: a non-empty body starts a loader on it; an error, no
        bytes available or an empty body is reported as an error. The
        request is cleared in every case. */
    method OnNetworkReply(outcome: ReplyOutcome)
      requires Valid() && networkReply.Some?
      modifies this
      ensures Valid()
      ensures networkReply.None?
      ensures outcome.noError && outcome.bytesAvailable > 0 && |outcome.body| > 0 ==>
        Fields() == old(Fields()).(networkReply := None,
          loader := if mgr != null then Some(Running(FromData(outcome.body, decimation))) else None)
      ensures !(outcome.noError && outcome.bytesAvailable > 0 && |outcome.body| > 0) ==>
        Fields() == old(Fields()).(networkReply := None, errorOccured := true,
          errorMessage := if outcome.noError && outcome.bytesAvailable > 0
                          then EmptyResultMessage(outcome.url)
                          else outcome.errorString,
          finishedSignals := old(finishedSignals) + [true])
    {
      if outcome.noError && outcome.bytesAvailable > 0 {
        var data := outcome.body;
        if |data| == 0 {
          ReportError(EmptyResultMessage(outcome.url));
        } else {
          StartAsyncLoader(FromData(data, decimation));
        }
      } else {
        ReportError(outcome.errorString);
      }
      networkReply := None;
    }

    /** glLoad: uploads the data, charges its size to the manager and
        registers the new name; empty or oversized data is reported as an
        error and changes neither the name nor the manager. */
    method GlLoad(data: GLData, ctx: GLContext) returns (ok: bool)
      requires Valid() && FreshName(ctx)
      modifies this, mgr
      ensures Valid()
      ensures ok == UploadSucceeds(data, ctx)
      ensures Fields() == AfterUpload(old(Fields()), data, ctx)
      ensures !ok ==> id == old(id)
      ensures mgr != null && ok ==>
        mgr.glMemoryUsage == old(mgr.glMemoryUsage) + glSize && mgr.idMap == old(mgr.idMap)[id := this]
      ensures mgr != null && !ok ==>
        mgr.glMemoryUsage == old(mgr.glMemoryUsage) && mgr.idMap == old(mgr.idMap)
    {
      ghost var after := AfterUpload(Fields(), data, ctx);
      if mgr == null {
        return false;
      }
      if |data.data| == 0 {
        ReportError(if data.loaderError == "" then UnknownError else data.loaderError);
        assert Fields() == after;
        return false;
      }
      width := data.width;
      height := data.height;
      if ctx.maxTextureSize < width || ctx.maxTextureSize < height {
        ReportError(TooLargeMessage(width, height, ctx.maxTextureSize));
        assert Fields() == after;
        return false;
      }
      Upload(data, ctx);
      assert Fields() == after;
      return true;
    }

    /** The upload step of glLoad, once the data is known to be non-empty
        and small enough: records whether the format has an alpha channel,
        charges the data's size (with the mipmap overhead) and registers the
        new name, then signals a successful load. */
    method Upload(data: GLData, ctx: GLContext)
      requires Valid() && FreshName(ctx) && mgr != null
      modifies this, mgr
      ensures Valid()
      ensures Fields() == old(Fields()).(id := ctx.freshId,
        glSize := GlSize(|data.data|, generateMipmaps, ctx.maxAnisotropy, ctx.desiredAnisotropy),
        alphaChannel := HasAlpha(data.format),
        finishedSignals := old(finishedSignals) + [false])
      ensures mgr.glMemoryUsage == old(mgr.glMemoryUsage) + glSize
      ensures mgr.idMap == old(mgr.idMap)[ctx.freshId := this]
    {
      var size := GlSize(|data.data|, generateMipmaps, ctx.maxAnisotropy, ctx.desiredAnisotropy);
      mgr.Add(ctx.freshId, size, this);
      id := ctx.freshId;
      alphaChannel := HasAlpha(data.format);
      glSize := size;
      finishedSignals := finishedSignals + [false];
    }

    /** bind: true at once for an uploaded texture, false for a failed one;
        otherwise advances loading and, once the loader has finished and the
        frame's load-time budget allows, uploads its result and drops the
        loader. True exactly when the texture then has a name. */
    method Bind(loadTimeTaken: int, ctx: GLContext) returns (bound: bool)
      requires Valid() && FreshName(ctx)
      modifies this, mgr
      ensures Valid()
      ensures bound <==> id != 0
      ensures old(id) != 0 ==> Fields() == old(Fields())
      ensures old(id) == 0 && old(errorOccured) ==> Fields() == old(Fields())
      ensures old(id) == 0 && !old(errorOccured) && !old(LoaderFinished()) ==>
        Fields() == AfterLoad(old(Fields()))
      ensures old(id == 0 && !errorOccured && LoaderFinished()) && loadTimeTaken > MaxLoadNanosecPerFrame ==>
        Fields() == old(Fields())
      ensures old(id == 0 && !errorOccured && LoaderFinished()) && loadTimeTaken <= MaxLoadNanosecPerFrame ==>
        Fields() == AfterUpload(old(Fields()), old(loader.value.result), ctx).(loader := None)
      ensures mgr != null && old(id) == 0 && bound ==>
        mgr.glMemoryUsage == old(mgr.glMemoryUsage) + glSize && mgr.idMap == old(mgr.idMap)[id := this]
      ensures mgr != null && !(old(id) == 0 && bound) ==>
        mgr.glMemoryUsage == old(mgr.glMemoryUsage) && mgr.idMap == old(mgr.idMap)
    {
      if id != 0 {
        return true;
      }
      if errorOccured {
        return false;
      }
      var ready := Load();
      if ready {
        if loadTimeTaken > MaxLoadNanosecPerFrame {
          return false;
        }
        var _ := GlLoad(loader.value.result, ctx);
        loader := None;
        if id != 0 {
          return true;
        }
        if errorOccured {
          return false;
        }
      }
      return false;
    }

    /** waitForLoaded: blocks until the loader finishes, uploads its result
        and drops the loader; nothing happens without a loader. */
    method WaitForLoaded(decoded: GLData, ctx: GLContext)
      requires Valid() && FreshName(ctx)
      modifies this, mgr
      ensures Valid()
      ensures old(loader.None?) ==> Fields() == old(Fields())
      ensures old(loader.Some?) ==>
        Fields() == AfterUpload(old(Fields()), old(LoaderResult(loader.value, decoded)), ctx).(loader := None)
      ensures mgr != null && old(loader.Some?) && old(UploadSucceeds(LoaderResult(loader.value, decoded), ctx)) ==>
        mgr.glMemoryUsage == old(mgr.glMemoryUsage) + glSize && mgr.idMap == old(mgr.idMap)[id := this]
      ensures mgr != null && !(old(loader.Some?) && old(UploadSucceeds(LoaderResult(loader.value, decoded), ctx))) ==>
        mgr.glMemoryUsage == old(mgr.glMemoryUsage) && mgr.idMap == old(mgr.idMap)
    {
      if loader.Some? {
        var data := LoaderResult(loader.value, decoded);
        var _ := GlLoad(data, ctx);
        loader := None;
      }
    }

    /** The destructor: with a manager, a valid uploaded texture is deleted,
        its charge taken off the manager's total and its name unregistered;
        a pending request is aborted and deleted, and when the abort delivers
        the reply (`delivered`) it is reported as a cancelled one; the name,
        the request and the loader are cleared. Without a manager nothing is
        touched. */
    method Destroy(isTexture: bool, delivered: bool)
      requires Valid()
      modifies this, mgr
      ensures Valid()
      ensures mgr == null ==> Fields() == old(Fields())
      ensures mgr != null ==>
        Fields() == old(Fields()).(loader := None, networkReply := None, id := 0,
          glSize := if old(id) != 0 && isTexture then 0 else old(glSize),
          errorOccured := old(errorOccured) || (old(networkReply.Some?) && delivered),
          errorMessage := if old(networkReply.Some?) && delivered then OperationCanceled else old(errorMessage),
          finishedSignals := old(finishedSignals) + if old(networkReply.Some?) && delivered then [true] else [])
      ensures mgr != null && old(id) != 0 && isTexture ==>
        mgr.glMemoryUsage == old(mgr.glMemoryUsage) - old(glSize) && mgr.idMap == old(mgr.idMap) - {old(id)}
      ensures mgr != null && !(old(id) != 0 && isTexture) ==>
        mgr.glMemoryUsage == old(mgr.glMemoryUsage) && mgr.idMap == old(mgr.idMap)
    {
      if mgr == null {
        return;
      }
      if id != 0 {
        if isTexture {
          mgr.Remove(id, glSize);
          glSize := 0;
        }
        id := 0;
      }
      AbortRequest(delivered);
      loader := None;
    }

    /** The destructor's abort of a pending request. When the abort delivers
        the reply at once (`delivered`), onNetworkReply reports the
        cancellation as an error; the reply is then deleted, so one whose
        finish was only queued reports nothing. Either way the request is
        cleared. */
    method AbortRequest(delivered: bool)
      requires Valid()
      modifies this
      ensures Valid()
      ensures Fields() == old(Fields()).(networkReply := None,
        errorOccured := old(errorOccured) || (old(networkReply.Some?) && delivered),
        errorMessage := if old(networkReply.Some?) && delivered then OperationCanceled else old(errorMessage),
        finishedSignals := old(finishedSignals) + if old(networkReply.Some?) && delivered then [true] else [])
    {
      if networkReply.Some? {
        if delivered {
          OnNetworkReply(ReplyOutcome(networkReply.value.url, false, 0, [], OperationCanceled));
        } else {
          networkReply := None;
        }
      }
    }

    /** getDimensions: an unknown size is read from the file's header when
        the file can be read; then the known size is returned. */
    method GetDimensions(canRead: bool, fileWidth: int, fileHeight: int) returns (ok: bool, w: int, h: int)
      requires Valid()
      modifies this
      ensures Valid()
      ensures old(width >= 0 && height >= 0) ==> ok && Fields() == old(Fields())
      ensures old(width < 0 || height < 0) ==> ok == canRead
      ensures old(width < 0 || height < 0) && canRead ==>
        Fields() == old(Fields()).(width := fileWidth, height := fileHeight)
      ensures old(width < 0 || height < 0) && !canRead ==> Fields() == old(Fields())
      ensures ok ==> w == width && h == height
    {
      if width < 0 || height < 0 {
        if !canRead {
          return false, 0, 0;
        }
        width := fileWidth;
        height := fileHeight;
      }
      return true, width, height;
    }
  }

  /** Uploading a texture and destroying it again leaves the manager's
      memory total and name map as they were. */
  method UploadThenDestroy(t: Texture, data: GLData, ctx: GLContext, delivered: bool)
    requires t.Valid() && t.FreshName(ctx) && t.mgr != null && t.id == 0
    requires ctx.freshId !in t.mgr.idMap
    modifies t, t.mgr
    ensures t.mgr.glMemoryUsage == old(t.mgr.glMemoryUsage)
    ensures t.mgr.idMap == old(t.mgr.idMap)
    ensures t.id == 0
  {
    var ok := t.GlLoad(data, ctx);
    t.Destroy(true, delivered);
    assert ok ==> old(t.mgr.idMap)[ctx.freshId := t] - {ctx.freshId} == old(t.mgr.idMap);
  }

  /** A texture found invalid on deletion stays registered and charged; when
      GL hands its name to another texture, the new entry replaces it in the
      map while the total keeps both charges. */
  method StaleNameReused(a: Texture, b: Texture, data: GLData, ctx: GLContext, delivered: bool)
    requires a != b && a.mgr != null && b.mgr == a.mgr && b.generateMipmaps == a.generateMipmaps
    requires a.Valid() && b.Valid() && a.id == 0 && b.id == 0 && a.FreshName(ctx)
    requires a.UploadSucceeds(data, ctx) && ctx.freshId !in a.mgr.idMap
    modifies a, b, a.mgr
    ensures a.mgr.idMap == old(a.mgr.idMap)[ctx.freshId := b]
    ensures a.glSize == b.glSize == GlSize(|data.data|, a.generateMipmaps, ctx.maxAnisotropy, ctx.desiredAnisotropy)
    ensures a.mgr.glMemoryUsage == old(a.mgr.glMemoryUsage) + a.glSize + b.glSize
  {
    var _ := a.GlLoad(data, ctx);
    a.Destroy(false, delivered);
    var _ := b.GlLoad(data, ctx);
  }
}
