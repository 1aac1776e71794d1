/** Layers and the feed-forward network built from them. A layer is a dense
    (affine) layer or a ReLU activation; a network applies its layers in order,
    feeding each output into the next layer. */
module Networks {
  import opened Shapes
  import opened Tensors
  import opened Kernels
  import opened Functional

  datatype Option<T> = None | Some(value: T)

  /** A dense layer owns a weight tensor and a bias tensor; a ReLU layer either
      rectifies its input's own buffer (`inplace`) or a copy of it. */
  datatype Layer = Dense(weights: Tensor, bias: Tensor) | ReLU(inplace: bool)

  datatype Network = Network(layers: seq<Layer>)

  /** The initialisation policy handed to `DenseLayer` for a tensor: fill with
      zeros, ones, the identity pattern, or with the value a generator gives
      for each linear index (the random fill and the demo's `i + 1` fill). */
  datatype Init = Zeros | Ones | Identity | Generated(value: nat -> int)

  // ---------------------------------------------------------------------
  // Construction.

  /** The buffer a policy leaves in a tensor of the given shape. */
  function Filled(init: Init, shape: seq<nat>): (s: seq<int>)
    requires init.Identity? ==> |shape| == 2
    ensures |s| == Product(shape)
  {
    match init
    case Zeros => seq(Product(shape), _ => 0)
    case Ones => seq(Product(shape), _ => 1)
    case Identity => IdentityMatrix(shape[0], shape[1])
    case Generated(value) => seq(Product(shape), i requires 0 <= i < Product(shape) => value(i))
  }

  /** Overwrites every element of `t` with a caller-supplied value per index. */
  method InitGenerated(t: Tensor, value: nat -> int)
    requires t.Valid()
    modifies t.data
    ensures forall k :: 0 <= k < t.length ==> t.data[k] == value(k)
  {
    for i := 0 to t.length
      invariant forall k :: 0 <= k < i ==> t.data[k] == value(k)
    {
      t.data[i] := value(i);
    }
  }

  /** Runs an initialisation policy on `t`'s buffer. */
  method ApplyInit(init: Init, t: Tensor)
    requires t.Valid() && (init.Identity? ==> t.ndim == 2)
    modifies t.data
    ensures t.data[..] == Filled(init, t.shape)
  {
    match init
    case Zeros => InitZeros(t);
    case Ones => InitOnes(t);
    case Identity => InitIdentity(t);
    case Generated(value) => InitGenerated(t, value);
  }

  /** A dense layer with an n_in-by-n_out weight tensor and an n_out bias
      tensor, each in its own fresh buffer and filled by its own policy. The
      identity fill asserts a 2-D tensor, so it cannot be the bias policy. */
  method DenseLayer(numInputs: nat, numOutputs: nat, initWeights: Init, initBiases: Init)
    returns (layer: Layer)
    requires !initBiases.Identity?
    ensures layer.Dense?
    ensures layer.weights.Valid() && layer.weights.ndim == 2
    ensures layer.weights.shape == [numInputs, numOutputs] && layer.weights.length == numInputs * numOutputs
    ensures layer.bias.Valid() && layer.bias.ndim == 1
    ensures layer.bias.shape == [numOutputs] && layer.bias.length == numOutputs
    ensures fresh(layer.weights.data) && fresh(layer.bias.data)
    ensures layer.weights.data[..] == Filled(initWeights, layer.weights.shape)
    ensures layer.bias.data[..] == Filled(initBiases, layer.bias.shape)
  {
    var weights := Create2D(numInputs, numOutputs);
    var bias := Create1D(numOutputs);
    ApplyInit(initWeights, weights);
    ApplyInit(initBiases, bias);
    layer := Dense(weights, bias);
  }

  /** `relu(inplace)`. */
  function MakeRelu(inplace: bool): (layer: Layer)
    ensures layer.ReLU? && layer.inplace == inplace
    ensures forall s: seq<nat>, x: seq<int> | |x| == Product(s) ::
      Accepts(layer, s) && OutShape(layer, s) == s && Apply(layer, s, x) == ReluAll(x)
  {
    ReLU(inplace)
  }

  /** A network holding the given layers in the given order. */
  function Sequential(layers: seq<Layer>): Network
  {
    Network(layers)
  }

  // ---------------------------------------------------------------------
  // What a forward pass computes, on shapes and element values.

  /** The buffers a layer reads. */
  function Params(layer: Layer): set<array<int>>
  {
    if layer.Dense? then {layer.weights.data, layer.bias.data} else {}
  }

  function AllParams(layers: seq<Layer>): set<array<int>>
  {
    if |layers| == 0 then {} else AllParams(layers[..|layers| - 1]) + Params(layers[|layers| - 1])
  }

  /** The checks a layer's forward pass makes on an input of the given shape:
      for a dense layer, the matmul check on (weights, input) and the
      same-shape check on (product, bias). */
  predicate Accepts(layer: Layer, shape: seq<nat>)
  {
    match layer
    case Dense(w, b) =>
      && w.Valid() && b.Valid()
      && MatmulShapeOk(w.shape, shape)
      && SameShape(shape[0] * w.shape[1], [shape[0], w.shape[1]], b.length, b.shape)
    case ReLU(_) => true
  }

  function OutShape(layer: Layer, shape: seq<nat>): seq<nat>
    requires Accepts(layer, shape)
  {
    match layer
    case Dense(w, _) => [shape[0], w.shape[1]]
    case ReLU(_) => shape
  }

  /** The output elements of a layer for input elements `x` of the given shape. */
  function Apply(layer: Layer, shape: seq<nat>, x: seq<int>): (y: seq<int>)
    requires Accepts(layer, shape) && |x| == Product(shape)
    reads Params(layer)
    ensures |y| == Product(OutShape(layer, shape))
  {
    match layer
    case Dense(w, b) => ElementSum(MatMul(w.data[..], x, w.shape[0], w.shape[1], shape[0]), b.data[..])
    case ReLU(_) => ReluAll(x)
  }

  /** A dense layer built with the identity fill for its (square) weights and
      the zero fill for its bias passes its input through unchanged. */
  lemma DenseIdentityPassesThrough(w: Tensor, b: Tensor, shape: seq<nat>, x: seq<int>)
    requires Accepts(Dense(w, b), shape) && |x| == Product(shape)
    requires w.shape[0] == w.shape[1] && w.data[..] == Filled(Identity, w.shape)
    requires b.data[..] == Filled(Zeros, b.shape)
    ensures OutShape(Dense(w, b), shape) == shape
    ensures Apply(Dense(w, b), shape, x) == x
  {
    MatMulIdentity(x, shape[0], w.shape[0]);
    ElementSumZero(x, b.data[..]);
  }

  /** The output shape after running the layers in order, or None when some
      layer's check fails on the shape it receives. */
  function Propagate(layers: seq<Layer>, shape: seq<nat>): Option<seq<nat>>
  {
    if |layers| == 0 then Some(shape)
    else
      match Propagate(layers[..|layers| - 1], shape)
      case None => None
      case Some(s) => if Accepts(layers[|layers| - 1], s) then Some(OutShape(layers[|layers| - 1], s)) else None
  }

  /** The output elements after running the layers in order. */
  function Run(layers: seq<Layer>, shape: seq<nat>, x: seq<int>): (y: seq<int>)
    requires Propagate(layers, shape).Some? && |x| == Product(shape)
    reads AllParams(layers)
    ensures |y| == Product(Propagate(layers, shape).value)
  {
    if |layers| == 0 then x
    else
      var prefix := layers[..|layers| - 1];
      Apply(layers[|layers| - 1], Propagate(prefix, shape).value, Run(prefix, shape, x))
  }

  /** Running `a + b` is running `a`, then `b` on its output. */
  lemma {:induction false} RunAppend(a: seq<Layer>, b: seq<Layer>, shape: seq<nat>, x: seq<int>)
    requires Propagate(a + b, shape).Some? && |x| == Product(shape)
    ensures Propagate(a, shape).Some?
    ensures Propagate(b, Propagate(a, shape).value) == Propagate(a + b, shape)
    ensures AllParams(a) <= AllParams(a + b) && AllParams(b) <= AllParams(a + b)
    ensures Run(a + b, shape, x) == Run(b, Propagate(a, shape).value, Run(a, shape, x))
    decreases |b|
  {
    if |b| == 0 {
      assert a + b == a;
    } else {
      var b' := b[..|b| - 1];
      assert (a + b)[..|a + b| - 1] == a + b';
      assert (a + b)[|a + b| - 1] == b[|b| - 1];
      RunAppend(a, b', shape, x);
    }
  }

  lemma {:induction false} PropagatePrefix(layers: seq<Layer>, shape: seq<nat>, i: nat)
    requires Propagate(layers, shape).Some? && i <= |layers|
    ensures Propagate(layers[..i], shape).Some?
    ensures AllParams(layers[..i]) <= AllParams(layers)
    ensures i < |layers| ==> Params(layers[i]) <= AllParams(layers)
    decreases |layers|
  {
    if i < |layers| {
      var prefix := layers[..|layers| - 1];
      assert prefix[..i] == layers[..i];
      if i < |prefix| {
        assert prefix[i] == layers[i];
        PropagatePrefix(prefix, shape, i);
      } else {
        assert prefix == layers[..i];
      }
    } else {
      assert layers[..i] == layers;
    }
  }

  /** One more layer: running the first i + 1 layers applies layer i to the
      output of the first i. */
  lemma RunStep(layers: seq<Layer>, shape: seq<nat>, x: seq<int>, i: nat)
    requires i < |layers| && Propagate(layers[..i + 1], shape).Some? && |x| == Product(shape)
    ensures Propagate(layers[..i], shape).Some?
    ensures Accepts(layers[i], Propagate(layers[..i], shape).value)
    ensures Run(layers[..i + 1], shape, x)
      == Apply(layers[i], Propagate(layers[..i], shape).value, Run(layers[..i], shape, x))
  {
    assert layers[..i + 1][..i] == layers[..i];
    assert layers[..i + 1][i] == layers[i];
  }

  // ---------------------------------------------------------------------
  // Forward passes.

  /** `matmul(weights, input)` with the bias added in place to the new
      product; the weights, the bias and the input are unchanged. */
  method DenseForward(weights: Tensor, bias: Tensor, input: Tensor) returns (out: Tensor)
    requires weights.Valid() && bias.Valid() && input.Valid()
    requires MatmulShapeOk(weights.shape, input.shape)
    requires SameShape(input.shape[0] * weights.shape[1], [input.shape[0], weights.shape[1]], bias.length, bias.shape)
    ensures out.Valid() && out.shape == [input.shape[0], weights.shape[1]]
    ensures fresh(out.data)
    ensures out.data[..] == ElementSum(
      MatMul(weights.data[..], input.data[..], weights.shape[0], weights.shape[1], input.shape[0]),
      bias.data[..])
  {
    out := Matmul(weights, input);
    Add(out, bias);
  }

  /** Rectifies the input's own buffer (`inplace`, the struct copy shares it)
      or a deep copy of it, and returns the struct. */
  method ReluForward(inplace: bool, input: Tensor) returns (out: Tensor)
    requires input.Valid()
    modifies input.data
    ensures out.Valid() && out.ndim == input.ndim && out.shape == input.shape && out.length == input.length
    ensures out.data[..] == ReluAll(old(input.data[..]))
    ensures inplace ==> out.data == input.data
    ensures !inplace ==> fresh(out.data) && input.data[..] == old(input.data[..])
  {
    var t: Tensor;
    if inplace {
      t := input;
    } else {
      t := Copy(input);
    }
    ReluInPlace(t);
    out := t;
  }

  /** The virtual `forward` call, dispatched on the kind of layer. */
  method LayerForward(layer: Layer, input: Tensor) returns (out: Tensor)
    requires input.Valid() && Accepts(layer, input.shape)
    modifies input.data
    ensures out.Valid() && out.shape == OutShape(layer, input.shape)
    ensures out.data[..] == Apply(layer, input.shape, old(input.data[..]))
    ensures layer == ReLU(true) ==> out.data == input.data
    ensures layer != ReLU(true) ==> fresh(out.data) && input.data[..] == old(input.data[..])
  {
    match layer
    case Dense(w, b) =>
      out := DenseForward(w, b, input);
    case ReLU(inplace) =>
      out := ReluForward(inplace, input);
  }

  /** Runs layer i on the output of the first i layers. `avoid` is a set of
      buffers the current one is not among (the network's parameters); the
      next buffer is not among them either. */
  method ForwardStep(layers: seq<Layer>, shape: seq<nat>, ghost x: seq<int>, i: nat,
                     cur: Tensor, ghost avoid: set<array<int>>) returns (next: Tensor)
    requires i < |layers| && Propagate(layers[..i + 1], shape).Some? && |x| == Product(shape)
    requires Propagate(layers[..i], shape).Some?
    requires cur.Valid() && cur.shape == Propagate(layers[..i], shape).value
    requires cur.data[..] == Run(layers[..i], shape, x)
    requires AllParams(layers[..i + 1]) <= avoid && cur.data !in avoid
    modifies cur.data
    ensures next.Valid() && next.shape == Propagate(layers[..i + 1], shape).value
    ensures next.data[..] == Run(layers[..i + 1], shape, x)
    ensures next.data !in avoid
    ensures layers[i] == ReLU(true) ==> next.data == cur.data && next.data[..] == ReluAll(old(cur.data[..]))
    ensures layers[i] != ReLU(true) ==> fresh(next.data) && cur.data[..] == old(cur.data[..])
  {
    RunStep(layers, shape, x, i);
    PropagatePrefix(layers[..i + 1], shape, i);
    assert layers[..i + 1][..i] == layers[..i] && layers[..i + 1][i] == layers[i];
    next := LayerForward(layers[i], cur);
  }

  /** The network's first layer rectifies its input in place. */
  predicate StartsInPlace(layers: seq<Layer>)
  {
    |layers| > 0 && layers[0] == ReLU(true)
  }

  /** Feeds the input through the layers in order. With no layers the result
      is the input struct itself. The input's buffer is rectified exactly when
      the first layer is an in-place ReLU (later in-place ReLUs see buffers of
      their own or an already rectified input); no other buffer the caller
      holds is written. */
  method NetworkForward(net: Network, input: Tensor) returns (output: Tensor)
    requires input.Valid() && Propagate(net.layers, input.shape).Some?
    requires input.data !in AllParams(net.layers)
    modifies input.data
    ensures output.Valid() && output.shape == Propagate(net.layers, input.shape).value
    ensures output.data[..] == Run(net.layers, input.shape, old(input.data[..]))
    ensures |net.layers| == 0 ==> output == input
    ensures input.data[..] == if StartsInPlace(net.layers) then ReluAll(old(input.data[..])) else old(input.data[..])
  {
    var layers := net.layers;
    ghost var x0 := input.data[..];
    ghost var params := AllParams(layers);
    output := input;
    assert layers[..0] == [];
    for i := 0 to |layers|
      invariant output.Valid()
      invariant Propagate(layers[..i], input.shape).Some?
      invariant output.shape == Propagate(layers[..i], input.shape).value
      invariant output.data[..] == Run(layers[..i], input.shape, x0)
      invariant i == 0 ==> output == input
      invariant output.data == input.data || fresh(output.data)
      invariant output.data !in params
      invariant output.data == input.data ==> i == 0 || StartsInPlace(layers)
      invariant input.data[..] == if 0 < i && StartsInPlace(layers) then ReluAll(x0) else x0
    {
      PropagatePrefix(layers, input.shape, i + 1);
      ghost var shared := output.data == input.data;
      ghost var seen := input.data[..];
      output := ForwardStep(layers, input.shape, x0, i, output, params);
      if shared && layers[i] == ReLU(true) {
        // The step rectified the caller's buffer once more.
        assert input.data[..] == ReluAll(seen);
        if 0 < i {
          ReluAllIdempotent(x0);
        }
      } else {
        assert input.data[..] == seen;
      }
    }
    assert layers[..|layers|] == layers;
  }
}
