/** Rendering many vertex and index lists from one pair of buffers. */
module DrawLists {
  import opened Prelude

  datatype Rect = Rect(x: real, y: real, z: real, w: real)

  datatype Scissor = Scissor(left: int, top: int, right: int, bottom: int)

  datatype Command =
    | ResetRenderState
    | UserCallback
    | Draw(elemCount: nat, idxOffset: nat, vtxOffset: nat, clip: Rect, texture: nat)

  datatype DrawList<V> = DrawList(vtx: seq<V>, idx: seq<nat>, cmds: seq<Command>)

  datatype DrawData<V> = DrawData(
    posX: real, posY: real, width: real, height: real,
    lists: seq<DrawList<V>>, totalVtx: nat, totalIdx: nat)

  /** What the device is told. */
  datatype Issued =
    | SetupState
    | CallUser(list: nat, cmd: nat)
    | DrawIndexed(scissor: Scissor, texture: nat, count: nat, startIndex: nat, baseVertex: nat)

  /** What comes out of it. */
  datatype Rendered<V> =
    | StateSet
    | UserCalled(list: nat, cmd: nat)
    | Drawn(scissor: Scissor, texture: nat, vertices: seq<Option<V>>)

  /** Conversion to LONG: towards zero. */
  function Truncated(x: real): int {
    if 0.0 <= x then x.Floor else -((-x).Floor)
  }

  function ScissorOf<V>(data: DrawData<V>, clip: Rect): Scissor {
    Scissor(Truncated(clip.x - data.posX), Truncated(clip.y - data.posY),
            Truncated(clip.z - data.posX), Truncated(clip.w - data.posY))
  }

  /** Only the D3D12 backend leaves out empty rectangles and null textures. */
  predicate Skipped(culling: bool, s: Scissor, texture: nat) {
    culling && !(s.right > s.left && s.bottom > s.top && texture != 0)
  }

  /** The vertices an indexed draw reads; None outside the buffers. */
  function Fetch<V>(vb: seq<V>, ib: seq<nat>, count: nat, start: nat, base: nat): seq<Option<V>> {
    seq(count, k requires 0 <= k < count =>
      if start + k < |ib| && ib[start + k] + base < |vb| then Some(vb[ib[start + k] + base]) else None)
  }

  function Executed<V>(vb: seq<V>, ib: seq<nat>, issued: seq<Issued>): seq<Rendered<V>> {
    if issued == [] then []
    else
      Executed(vb, ib, issued[..|issued| - 1]) + [
        match issued[|issued| - 1]
        case SetupState => StateSet
        case CallUser(l, c) => UserCalled(l, c)
        case DrawIndexed(s, t, count, start, base) => Drawn(s, t, Fetch(vb, ib, count, start, base))]
  }

  /** What the first n commands of list l mean, each over the list's own data. */
  function Meaning<V>(data: DrawData<V>, culling: bool, l: nat, n: nat): seq<Rendered<V>>
    requires l < |data.lists| && n <= |data.lists[l].cmds|
  {
    if n == 0 then []
    else
      var list := data.lists[l];
      Meaning(data, culling, l, n - 1) +
      match list.cmds[n - 1]
      case ResetRenderState => [StateSet]
      case UserCallback => [UserCalled(l, n - 1)]
      case Draw(count, idxOffset, vtxOffset, clip, texture) =>
        var s := ScissorOf(data, clip);
        if Skipped(culling, s, texture) then []
        else [Drawn(s, texture, Fetch(list.vtx, list.idx, count, idxOffset, vtxOffset))]
  }

  /** The meaning of the first n lists, one after the other. */
  function AllMeaning<V>(data: DrawData<V>, culling: bool, n: nat): seq<Rendered<V>>
    requires n <= |data.lists|
  {
    if n == 0 then []
    else AllMeaning(data, culling, n - 1) + Meaning(data, culling, n - 1, |data.lists[n - 1].cmds|)
  }

  function FlatVtx<V>(lists: seq<DrawList<V>>): seq<V> {
    if lists == [] then [] else FlatVtx(lists[..|lists| - 1]) + lists[|lists| - 1].vtx
  }

  function FlatIdx<V>(lists: seq<DrawList<V>>): seq<nat> {
    if lists == [] then [] else FlatIdx(lists[..|lists| - 1]) + lists[|lists| - 1].idx
  }

  /** A draw reads only its own list's indices and vertices. */
  predicate CommandOk<V>(list: DrawList<V>, c: Command) {
    c.Draw? ==>
      && c.idxOffset + c.elemCount <= |list.idx|
      && forall i | c.idxOffset <= i < c.idxOffset + c.elemCount :: list.idx[i] + c.vtxOffset < |list.vtx|
  }

  ghost predicate DataOk<V>(data: DrawData<V>) {
    && data.totalVtx == |FlatVtx(data.lists)| && data.totalIdx == |FlatIdx(data.lists)|
    && forall l, c | 0 <= l < |data.lists| && c in data.lists[l].cmds :: CommandOk(data.lists[l], c)
  }

  lemma {:induction false} FlatPrefix<V>(lists: seq<DrawList<V>>, n: nat)
    requires n <= |lists|
    ensures FlatVtx(lists[..n]) <= FlatVtx(lists) && FlatIdx(lists[..n]) <= FlatIdx(lists)
    decreases |lists|
  {
    if n == |lists| {
      assert lists[..n] == lists;
    } else {
      FlatPrefix(lists[..|lists| - 1], n);
      assert lists[..|lists| - 1][..n] == lists[..n];
    }
  }

  /** The running offsets shift a draw onto its own part of the buffers. */
  lemma FetchIsOwn<V>(data: DrawData<V>, vb: seq<V>, ib: seq<nat>, l: nat, c: Command)
    requires DataOk(data) && FlatVtx(data.lists) <= vb && FlatIdx(data.lists) <= ib
    requires l < |data.lists| && c in data.lists[l].cmds && c.Draw?
    ensures var v, i := |FlatVtx(data.lists[..l])|, |FlatIdx(data.lists[..l])|;
      Fetch(vb, ib, c.elemCount, c.idxOffset + i, c.vtxOffset + v) ==
      Fetch(data.lists[l].vtx, data.lists[l].idx, c.elemCount, c.idxOffset, c.vtxOffset)
  {
    var list := data.lists[l];
    var v, i := |FlatVtx(data.lists[..l])|, |FlatIdx(data.lists[..l])|;
    FlatPrefix(data.lists, l + 1);
    assert data.lists[..l + 1][..l] == data.lists[..l];
    assert CommandOk(list, c);
    forall k | 0 <= k < |list.idx|
      ensures i + k < |ib| && ib[i + k] == list.idx[k]
    {
      assert FlatIdx(data.lists[..l + 1])[i + k] == list.idx[k];
    }
    forall k | 0 <= k < |list.vtx|
      ensures v + k < |vb| && vb[v + k] == list.vtx[k]
    {
      assert FlatVtx(data.lists[..l + 1])[v + k] == list.vtx[k];
    }
    forall k | 0 <= k < c.elemCount
      ensures
        Fetch(vb, ib, c.elemCount, c.idxOffset + i, c.vtxOffset + v)[k] ==
        Fetch(list.vtx, list.idx, c.elemCount, c.idxOffset, c.vtxOffset)[k]
    {
      var x := c.idxOffset + k;
      assert ib[i + x] == list.idx[x];
      assert vb[v + (list.idx[x] + c.vtxOffset)] == list.vtx[list.idx[x] + c.vtxOffset];
    }
  }

  // ----- what the commands mean -----

  /** The pixel lies at or behind the edge, once the edge's fraction is cut off. */
  predicate Behind(pixel: int, edge: real) {
    if 0.0 <= edge then edge < pixel as real + 1.0 else edge <= pixel as real
  }

  /** The pixel lies in the clip rectangle, moved to the display's origin. */
  predicate InClip<V>(data: DrawData<V>, clip: Rect, px: int, py: int) {
    && Behind(px, clip.x - data.posX) && !Behind(px, clip.z - data.posX)
    && Behind(py, clip.y - data.posY) && !Behind(py, clip.w - data.posY)
  }

  lemma BehindIsNotBefore(pixel: int, edge: real)
    ensures Behind(pixel, edge) <==> Truncated(edge) <= pixel
  {
    if 0.0 <= edge {
      assert edge.Floor as real <= edge < edge.Floor as real + 1.0;
    } else {
      assert (-edge).Floor as real <= -edge < (-edge).Floor as real + 1.0;
    }
  }

  lemma InScissorIff<V>(data: DrawData<V>, clip: Rect, px: int, py: int)
    ensures var s := ScissorOf(data, clip);
      s.left <= px < s.right && s.top <= py < s.bottom <==> InClip(data, clip, px, py)
  {
    BehindIsNotBefore(px, clip.x - data.posX);
    BehindIsNotBefore(px, clip.z - data.posX);
    BehindIsNotBefore(py, clip.y - data.posY);
    BehindIsNotBefore(py, clip.w - data.posY);
  }

  /** A scissor covers exactly the pixels of its clip rectangle; the D3D12 backend
      leaves out a draw exactly when it covers none or has no texture, the D3D11
      backend none. */
  lemma ScissorCoversClip<V>(data: DrawData<V>, clip: Rect, texture: nat)
    ensures var s := ScissorOf(data, clip);
      forall px, py :: s.left <= px < s.right && s.top <= py < s.bottom <==> InClip(data, clip, px, py)
    ensures Skipped(true, ScissorOf(data, clip), texture) <==>
      texture == 0 || forall px, py :: !InClip(data, clip, px, py)
    ensures !Skipped(false, ScissorOf(data, clip), texture)
  {
    var s := ScissorOf(data, clip);
    forall px, py
      ensures s.left <= px < s.right && s.top <= py < s.bottom <==> InClip(data, clip, px, py)
    {
      InScissorIff(data, clip, px, py);
    }
    if s.left < s.right && s.top < s.bottom {
      assert InClip(data, clip, s.left, s.top);
    }
  }

  /** What a command adds to the picture: a reset or a user call by itself, and a
      draw that covers something the vertices its list's indices name, one for each
      element. */
  lemma CommandMeans<V>(data: DrawData<V>, culling: bool, l: nat, n: nat)
    requires DataOk(data) && l < |data.lists| && n < |data.lists[l].cmds|
    ensures var list := data.lists[l];
      var before, after := Meaning(data, culling, l, n), Meaning(data, culling, l, n + 1);
      match list.cmds[n]
      case ResetRenderState => after == before + [StateSet]
      case UserCallback => after == before + [UserCalled(l, n)]
      case Draw(count, idxOffset, vtxOffset, clip, texture) =>
        if culling && (texture == 0 || forall px, py :: !InClip(data, clip, px, py)) then after == before
        else
          && |after| == |before| + 1 && after[..|before|] == before
          && after[|before|].Drawn? && after[|before|].texture == texture && |after[|before|].vertices| == count
          && forall k | 0 <= k < count ::
               && idxOffset + k < |list.idx| && list.idx[idxOffset + k] + vtxOffset < |list.vtx|
               && after[|before|].vertices[k] == Some(list.vtx[list.idx[idxOffset + k] + vtxOffset])
  {
    var list := data.lists[l];
    assert list.cmds[n] in list.cmds && CommandOk(list, list.cmds[n]);
    if list.cmds[n].Draw? {
      ScissorCoversClip(data, list.cmds[n].clip, list.cmds[n].texture);
    }
  }

  /** The two buffers of a frame; null until created. */
  class FrameResources<V(0)> {
    var vertexBuffer: array?<V>
    var vertexBufferSize: nat
    var indexBuffer: array?<nat>
    var indexBufferSize: nat

    constructor ()
      ensures Valid() && vertexBuffer == null && indexBuffer == null
    {
      vertexBuffer, indexBuffer, vertexBufferSize, indexBufferSize := null, null, 5000, 10000;
    }

    ghost predicate Valid()
      reads this
    {
      && (vertexBuffer != null ==> vertexBuffer.Length == vertexBufferSize)
      && (indexBuffer != null ==> indexBuffer.Length == indexBufferSize)
      && (vertexBuffer != null && indexBuffer != null ==> (vertexBuffer as object) != (indexBuffer as object))
    }

    /** Grows the buffers to the totals where needed; creating one may fail, and
        the old one is gone then. */
    method Grow(totalVtx: nat, totalIdx: nat, vertexFails: bool, indexFails: bool) returns (ok: bool)
      requires Valid()
      modifies this
      ensures Valid()
      ensures ok ==> vertexBuffer != null && totalVtx <= vertexBuffer.Length
      ensures ok ==> indexBuffer != null && totalIdx <= indexBuffer.Length
      ensures vertexBuffer != old(vertexBuffer) && vertexBuffer != null ==> fresh(vertexBuffer)
      ensures indexBuffer != old(indexBuffer) && indexBuffer != null ==> fresh(indexBuffer)
      ensures old(vertexBuffer) != null && totalVtx <= old(vertexBufferSize) ==> vertexBuffer == old(vertexBuffer)
      ensures vertexBuffer != old(vertexBuffer) && vertexBuffer != null ==> vertexBuffer.Length == totalVtx + 5000
      ensures indexBuffer != old(indexBuffer) && indexBuffer != null ==> indexBuffer.Length == totalIdx + 10000
      ensures !vertexFails && !indexFails ==> ok
    {
      if vertexBuffer == null || vertexBufferSize < totalVtx {
        vertexBuffer := null;
        vertexBufferSize := totalVtx + 5000;
        if vertexFails {
          return false;
        }
        vertexBuffer := new V[vertexBufferSize];
      }
      if indexBuffer == null || indexBufferSize < totalIdx {
        indexBuffer := null;
        indexBufferSize := totalIdx + 10000;
        if indexFails {
          return false;
        }
        indexBuffer := new nat[indexBufferSize];
      }
      return true;
    }
  }

  method CopyAt<T>(dst: array<T>, at: nat, src: seq<T>)
    requires at + |src| <= dst.Length
    modifies dst
    ensures dst[..at + |src|] == old(dst[..at]) + src
  {
    for k := 0 to |src|
      invariant dst[..at + k] == old(dst[..at]) + src[..k]
    {
      dst[at + k] := src[k];
    }
  }

  /** Copies every list behind the one before it; no copy leaves the buffers. */
  method Upload<V>(data: DrawData<V>, vb: array<V>, ib: array<nat>)
    requires DataOk(data) && data.totalVtx <= vb.Length && data.totalIdx <= ib.Length
    requires (vb as object) != (ib as object)
    modifies vb, ib
    ensures FlatVtx(data.lists) <= vb[..] && FlatIdx(data.lists) <= ib[..]
  {
    var vtxDst, idxDst := 0, 0;
    for n := 0 to |data.lists|
      invariant vtxDst == |FlatVtx(data.lists[..n])| <= vb.Length && vb[..vtxDst] == FlatVtx(data.lists[..n])
      invariant idxDst == |FlatIdx(data.lists[..n])| <= ib.Length && ib[..idxDst] == FlatIdx(data.lists[..n])
    {
      var list := data.lists[n];
      FlatPrefix(data.lists, n + 1);
      assert data.lists[..n + 1][..n] == data.lists[..n];
      CopyAt(vb, vtxDst, list.vtx);
      CopyAt(ib, idxDst, list.idx);
      vtxDst, idxDst := vtxDst + |list.vtx|, idxDst + |list.idx|;
    }
    assert data.lists[..|data.lists|] == data.lists;
  }

  lemma {:induction false} ExecutedConcat<V>(vb: seq<V>, ib: seq<nat>, a: seq<Issued>, b: seq<Issued>)
    ensures Executed(vb, ib, a + b) == Executed(vb, ib, a) + Executed(vb, ib, b)
  {
    if b == [] {
      assert a + b == a;
    } else {
      assert (a + b)[..|a + b| - 1] == a + b[..|b| - 1];
      ExecutedConcat(vb, ib, a, b[..|b| - 1]);
    }
  }

  /** The draw loops: what they issue renders every list as on its own. */
  method IssueDraws<V>(data: DrawData<V>, culling: bool, ghost vb: seq<V>, ghost ib: seq<nat>)
      returns (issued: seq<Issued>)
    requires DataOk(data) && FlatVtx(data.lists) <= vb && FlatIdx(data.lists) <= ib
    ensures Executed(vb, ib, issued) == [StateSet] + AllMeaning(data, culling, |data.lists|)
  {
    issued := [SetupState];
    var globalVtxOffset, globalIdxOffset := 0, 0;
    for n := 0 to |data.lists|
      invariant globalVtxOffset == |FlatVtx(data.lists[..n])| && globalIdxOffset == |FlatIdx(data.lists[..n])|
      invariant Executed(vb, ib, issued) == [StateSet] + AllMeaning(data, culling, n)
    {
      var list := data.lists[n];
      var next := IssueList(data, culling, n, globalVtxOffset, globalIdxOffset, vb, ib);
      ExecutedConcat(vb, ib, issued, next);
      issued := issued + next;
      globalIdxOffset := globalIdxOffset + |list.idx|;
      globalVtxOffset := globalVtxOffset + |list.vtx|;
      assert data.lists[..n + 1][..n] == data.lists[..n];
    }
  }

  method IssueList<V>(data: DrawData<V>, culling: bool, n: nat, vtxOffset: nat, idxOffset: nat,
                      ghost vb: seq<V>, ghost ib: seq<nat>) returns (issued: seq<Issued>)
    requires DataOk(data) && FlatVtx(data.lists) <= vb && FlatIdx(data.lists) <= ib
    requires n < |data.lists|
    requires vtxOffset == |FlatVtx(data.lists[..n])| && idxOffset == |FlatIdx(data.lists[..n])|
    ensures Executed(vb, ib, issued) == Meaning(data, culling, n, |data.lists[n].cmds|)
  {
    issued := [];
    for i := 0 to |data.lists[n].cmds|
      invariant Executed(vb, ib, issued) == Meaning(data, culling, n, i)
    {
      var next := IssueCommand(data, culling, n, i, vtxOffset, idxOffset, vb, ib);
      ExecutedConcat(vb, ib, issued, next);
      issued := issued + next;
    }
  }

  method IssueCommand<V>(data: DrawData<V>, culling: bool, n: nat, i: nat, vtxOffset: nat, idxOffset: nat,
                         ghost vb: seq<V>, ghost ib: seq<nat>) returns (issued: seq<Issued>)
    requires DataOk(data) && FlatVtx(data.lists) <= vb && FlatIdx(data.lists) <= ib
    requires n < |data.lists| && i < |data.lists[n].cmds|
    requires vtxOffset == |FlatVtx(data.lists[..n])| && idxOffset == |FlatIdx(data.lists[..n])|
    ensures |issued| <= 1
    ensures Meaning(data, culling, n, i + 1) == Meaning(data, culling, n, i) + Executed(vb, ib, issued)
  {
    var cmd := data.lists[n].cmds[i];
    match cmd
    case ResetRenderState => return [SetupState];
    case UserCallback => return [CallUser(n, i)];
    case Draw(count, cmdIdx, cmdVtx, clip, texture) =>
      FetchIsOwn(data, vb, ib, n, cmd);
      var r := ScissorOf(data, clip);
      if Skipped(culling, r, texture) {
        return [];
      }
      return [DrawIndexed(r, texture, count, cmdIdx + idxOffset, cmdVtx + vtxOffset)];
  }

  /** One call of the render function, for either backend.  When it issues
      anything, the device renders exactly what the lists mean. */
  method RenderDrawData<V(0)>(fr: FrameResources<V>, data: DrawData<V>, culling: bool,
                               vertexFails: bool, indexFails: bool)
      returns (ok: bool, issued: seq<Issued>)
    requires fr.Valid() && DataOk(data)
    modifies fr, fr.vertexBuffer, fr.indexBuffer
    ensures fr.Valid()
    ensures ok ==>
      && 0.0 < data.width && 0.0 < data.height && fr.vertexBuffer != null && fr.indexBuffer != null
      && Executed(fr.vertexBuffer[..], fr.indexBuffer[..], issued) ==
         [StateSet] + AllMeaning(data, culling, |data.lists|)
    ensures !ok ==> issued == []
    ensures 0.0 < data.width && 0.0 < data.height && !vertexFails && !indexFails ==> ok
  {
    if data.width <= 0.0 || data.height <= 0.0 {
      return false, [];
    }
    ok := fr.Grow(data.totalVtx, data.totalIdx, vertexFails, indexFails);
    if !ok {
      return false, [];
    }
    Upload(data, fr.vertexBuffer, fr.indexBuffer);
    issued := IssueDraws(data, culling, fr.vertexBuffer[..], fr.indexBuffer[..]);
  }
}
