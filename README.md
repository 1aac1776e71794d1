# AI-Playground tensor engine and layer pipeline in Dafny

This project models the small C++ neural-network playground. It has two parts.

The tensor engine is the `Tensor` struct and its operations:
- creation, deep copy and in-place fills;
- the same-shape and matmul shape checks;
- element-wise addition and multiplication, in place, as copies and as operators;
- matrix multiplication and reshape.

The layer pipeline is built on top of the engine:
- the ReLU activation;
- dense and ReLU layers;
- a network that feeds a tensor through its layers in order.

A tensor is a value `Tensor(ndim, length, shape, data)` whose `data` is an `array<int>`. Assigning or returning the value copies the struct, and the copy shares the buffer. This is what the C++ struct copies `t = *input` and `output = *input` do. `Valid()` states the bookkeeping invariant: `ndim == |shape|`, `length` is the product of the extents, and the buffer holds `length` elements. The layout is row-major: `shape[0]` is the row length, `shape[1]` the row count, and element (x, y) sits at `Offset(x, y, w) = x + y*w`.

The two shape checks exist only in debug builds (`#ifdef DEBUG`). They are modelled as predicates:
- `Shapes.SameShape` is the same-shape check, with its loop version `Shapes.CheckSameShape`;
- `Shapes.MatmulShapeOk` is the matmul check.

Each kernel takes the matching predicate as a precondition. An operation on a buffer is specified by a function on sequences, and the method that updates the buffer in place is proved against that function:
- `Kernels.ElementSum` and `Kernels.ElementProduct` for the element-wise kernels;
- `Tensors.MatMul`, together with `Tensors.Entry`, for matmul;
- `Tensors.IdentityMatrix` for the identity fill;
- `Functional.ReluAll` for the activation.

A forward pass is specified by `Networks.Run`. `Networks.Propagate` gives the shape each prefix of the layers produces.

The C++ stores layers as a `std::vector<Layer>` of the abstract base class. Such a vector cannot hold a `Dense_Layer` or a `ReLU_Layer`. Here a layer is the datatype `Dense(weights, bias) | ReLU(inplace)`, and the virtual `forward` call is a `match` (`Networks.LayerForward`).

The weight and bias initialisation callbacks of `dense_layer` become an `Init` policy:
- `Zeros`, `Ones` and `Identity`;
- `Generated(f)`, which writes `f(i)` at index `i`. It stands for the random fill and for any other per-index fill.

`tensor_reshape` does not reject zero extents, and `Tensors.Reshape` accepts any extents, as the code does.

## Model

| member | source | states |
|---|---|---|
| Shapes.CheckSameShape | src/tensor.h:96-148 | The check passes exactly when the lengths agree, the counts of non-unit extents agree if the dimension counts differ, and the two-cursor walk finds no mismatch. It always fails when the lengths differ. |
| Shapes.WalkComparable | src/tensor.h:128-146 | The walk that skips extents below 2 on each side independently passes exactly when one squeezed extent list is a prefix of the other. |
| Shapes.SameShapeIffSqueezed | src/tensor.h:105-146 | For well-formed tensors (all extents at least 1, length the product), the check passes if and only if the extent lists with every extent below 2 removed are equal. |
| Shapes.SameShapeSymmetric | src/tensor.h:96-148 | The check accepts (lhs, rhs) exactly when it accepts (rhs, lhs). |
| Shapes.SameShapeExamples | src/tensor.h:105-108 | `[2,1]` matches `[2]`, `[1,3,1]` matches `[3]`, and `[2,3]` does not match `[3,2]`. |
| Shapes.AsWrittenOverReads | src/tensor.h:128-146 | With the loop bound `<=` as written, every walk that finds no mismatch goes on to read `shape[ndim]`, one past the extents; every other walk stops at the mismatch. |
| Shapes.AsWrittenExample | src/tensor.h:130-131 | Two 1-D tensors of shape `[2]` pass the corrected walk, but the walk as written reads `lhs.shape[1]`. |
| Tensors.MatmulIndicesInBounds | src/tensor.h:155-161 | The matmul check (`Shapes.MatmulShapeOk`) holds when both shapes are 2-D and `lhs.shape[0] == rhs.shape[1]`. Under it, every index the triple loop reads or writes is inside its buffer. |
| Tensors.RhsReadsInBoundsIff | src/tensor.cpp:83-87 | For a non-empty rhs row, the loop's rhs reads `rhs[i + k*xr]` (i < xr, k < xl) all stay inside the xr-by-yr buffer if and only if `xl <= yr`. Without the matmul check, an lhs row longer than the rhs column reads past rhs. |
| Tensors.MatMulAt | src/tensor.cpp:83-89 | Element (i, j) of the product is at offset `i + j*xr`, inside the output, and equals row j of lhs dotted with column i of rhs, i.e. the sum over k of `lhs[k + j*xl] * rhs[i + k*xr]`. |
| Tensors.IdentityAt | src/tensor.cpp:64-73 | In the identity pattern, element (x, y) lies inside the buffer and is 1 when x == y and 0 otherwise. |
| Tensors.MatMulIdentity | src/tensor.cpp:64-91 | The product of the square identity fill with any matrix whose row count is its size is that matrix. |
| Tensors.Create1D | src/tensor.cpp:8-16 | Yields ndim 1, shape `[len]`, length len and a fresh buffer of len elements. |
| Tensors.Create2D | src/tensor.cpp:19-28 | Yields ndim 2, shape `[x, y]`, length `x*y` and a fresh buffer of that size. |
| Tensors.Copy | src/tensor.cpp:31-40 | The copy has the same ndim, length, shape and elements in a fresh buffer, so later writes to it never reach the original. |
| Tensors.InitZeros | src/tensor.cpp:43-47 | Every element becomes 0; the shape and length are untouched. |
| Tensors.InitOnes | src/tensor.cpp:51-55 | Every element becomes 1; the shape and length are untouched. |
| Tensors.InitIdentity | src/tensor.cpp:64-73 | For a 2-D tensor, the buffer becomes the identity pattern: 1 at `i*xlen + i` for i below min(xlen, ylen), 0 elsewhere. Every index written is in bounds. |
| Tensors.AccumulateEntry | src/tensor.cpp:85-87 | The innermost loop adds exactly the dot product for (i, j) to `out[i + j*xr]` and leaves every other element of the output alone. |
| Tensors.FillRow | src/tensor.cpp:84-88 | The middle loop fills row j of the zeroed output, the xr elements from `j*xr` on, with the product's values. The rest of the output is unchanged and the row lies inside the buffer. |
| Tensors.Matmul | src/tensor.cpp:76-91 | Under the matmul check, the output is a fresh 2-D tensor of shape `[rhs.shape[0], lhs.shape[1]]` holding the matrix product. All reads and writes are in bounds, and neither operand changes. |
| Tensors.Reshape | src/tensor.cpp:94-117 | Afterwards ndim, shape and length are the new extents and their product. When the length is unchanged the buffer is the same one. Otherwise it is a new buffer that keeps the first min(old, new) elements. |
| Kernels.Add | src/tensor.h:168-173 | Each `lhs.data[i]` becomes old `lhs.data[i] + rhs.data[i]`, with all reads in bounds because the check forces equal lengths. `rhs` is unchanged unless it shares the buffer. |
| Kernels.Mul | src/tensor.h:191-196 | The same as `Add`, with the product in place of the sum. |
| Kernels.CopyAdd | src/tensor.h:180-184 | Returns a fresh tensor with lhs's shape holding the element-wise sum; both operands are unchanged. |
| Kernels.CopyMul | src/tensor.h:203-207 | Returns a fresh tensor with lhs's shape holding the element-wise product; both operands are unchanged. |
| Kernels.Plus | src/tensor.h:213-215 | `a + b` is the element-wise sum in a fresh tensor with a's shape. |
| Kernels.Times | src/tensor.h:221-223 | `a * b` is the element-wise product in a fresh tensor with a's shape. |
| Kernels.ElementSumCommutes | src/tensor.h:213-215 | Element-wise sums commute. |
| Kernels.ElementProductCommutes | src/tensor.h:221-223 | Element-wise products commute. |
| Kernels.PlusCommutes | src/tensor.h:213-215 | Whenever `a + b` is allowed, `b + a` passes the same-shape check too. The two results are fresh, `a + b` has a's shape and holds `ElementSum(a, b)`, `b + a` has b's shape and holds `ElementSum(b, a)`, and they hold the same elements. |
| Functional.ReluInPlace | src/functional.h:13-17 | Every element becomes `max(0, old)`, in the tensor's own buffer. |
| Functional.ReluAllAt | src/functional.h:15 | Every rectified element is at least 0. Non-negative elements are kept and negative ones become 0. |
| Functional.ReluAllIdempotent | src/functional.h:13-17 | Rectifying twice gives the same buffer as rectifying once. |
| Functional.ReluExample | src/functional.h:15 | `[-1, 0, 2]` becomes `[0, 0, 2]`. |
| Networks.InitGenerated | src/tensor.cpp:57-61 | Every element is overwritten with the generator's value for its index. |
| Networks.ApplyInit | src/network.cpp:14-15 | A fill policy leaves the buffer it is applied to as the policy's pattern for that shape. |
| Networks.DenseLayer | src/network.cpp:5-17 | The weights are a fresh 2-D tensor of shape `[n_in, n_out]` and length `n_in*n_out`. The bias is a fresh 1-D tensor of shape `[n_out]` and length `n_out`. Each is filled by its own policy only. |
| Networks.MakeRelu | src/network.h:111-115 | `relu(b)` is a ReLU layer with `inplace == b`. It accepts every input shape, keeps the shape, and its output elements are the rectified input elements. |
| Networks.DenseIdentityPassesThrough | src/network.h:39-43 | A dense layer whose square weights hold the identity fill and whose bias holds the zero fill returns its input elements and shape unchanged. |
| Networks.RunAppend | src/network.h:78-84 | Running layers `a + b` is running `a`, then running `b` on its output. Layers act in index order, each fed the previous output. |
| Networks.DenseForward | src/network.h:39-43 | The output is a fresh tensor of shape `[input.shape[0], weights.shape[1]]` holding `matmul(weights, input)` plus the bias. Weights, bias and input are unchanged. |
| Networks.ReluForward | src/network.h:54-63 | The output has the input's shape and holds the rectified input. In place, it shares the input's buffer, which ends up rectified. Otherwise it is a fresh copy and the input is unchanged. |
| Networks.LayerForward | src/network.h:26-63 | The virtual `forward` dispatches on the layer kind. The output has the layer's output shape and holds the layer's function of the input. Only an in-place ReLU writes to the input's buffer. |
| Networks.ForwardStep | src/network.h:80-82 | One loop iteration: from the output of the first i layers, it produces the output of the first i + 1. |
| Networks.NetworkForward | src/network.h:78-84 | For a network built by `sequential` from any layers, in any order: the result has the shape the layers propagate and holds `Run` of the layers on the input. With no layers it is the input struct itself. The caller's buffer is rectified exactly when the first layer is an in-place ReLU, and is otherwise unchanged. |

## Findings

| source | as written | input that shows it | evidently intended | confidence | as-written member | corrected member |
|---|---|---|---|---|---|---|
| src/tensor.h:130 | `while (i <= lhs.ndim && j <= rhs.ndim)` | lhs and rhs both of shape `[2]`: after matching index 0 the loop reads `lhs.shape[1]`, past the one-element extent array | `i < lhs.ndim && j < rhs.ndim`; the check passes when the extents at least 2 agree in order | not executed | Shapes.AsWrittenOverReads | Shapes.SameShapeIffSqueezed |

## Left out

- Elements are exact integers, not `float`. Rounding, NaN and the behaviour of `fmax`/`fmin` on floats are not modelled.
- Extents and lengths are unbounded naturals. The `u32` wrap-around of `xlen*ylen` and of the product in reshape is not modelled, and neither is the `u8` dimension count.
- `tensor_init_random` calls `rand()`. It is represented by `Init.Generated` with a caller-supplied generator, so no particular value distribution is modelled.
- `tensor_create_scalar` is declared but defined nowhere, so it is not part of this model.
- `operator<<` (pretty-printing to a stream), the debug print of the new length in reshape, and the demo program `main.cpp` are not part of this model.
- Tensors.Reshape: a failed `realloc` is not modelled. Reallocation always succeeds, so the fallback that copies into a null pointer is not represented. `malloc`, `free` and the old shape array are not modelled either.
- Tensors.Reshape: once reshape moves the data, other struct copies that still point at the old buffer are left with a dangling pointer. The model returns the new struct and says nothing about those old copies.
- Kernels.Add, Kernels.Mul, Kernels.CopyAdd, Kernels.CopyMul, Kernels.Plus and Kernels.Times require the same-shape check, which only debug builds make. A release build skips it, and reads past `rhs.data` when rhs is shorter; that behaviour is not modelled.
- Tensors.Matmul requires the matmul check, which only debug builds make. In a release build, `lhs.shape[0] > rhs.shape[1]` makes the loop read past `rhs.data`. `Tensors.RhsReadsInBoundsIff` shows when the over-read happens, but the behaviour after the over-read is not modelled.
- Networks.DenseForward, Networks.LayerForward and Networks.NetworkForward require both checks for every dense layer, through `Networks.Accepts`. A release build without the checks is not modelled.
- Networks.MakeRelu and Networks.DenseLayer: the C++ default arguments (`inplace = false` for `relu`, and `tensor_init_random` for both `dense_layer` callbacks) are not modelled. Dafny callers always pass the flag and both policies; `Init.Generated` stands in for the random default.
- Networks.DenseLayer: it requires a bias policy other than `Identity`. `tensor_init_identity` asserts a 2-D tensor, and a bias is 1-D.
- Networks.DenseLayer: the init callbacks are modelled as the `Init` fill policies, not as arbitrary functions over the tensor.
- Networks.NetworkForward: it requires that the input's buffer is not one of the network's weight or bias buffers. With such aliasing, an in-place ReLU could rectify a later layer's parameters; that case is not modelled.
- The `require_grad` flag of a layer is never read, and the device-transfer comment on the tensor has no implementation. Neither is modelled.
- `Layer` is abstract, so the C++ `std::vector<Layer>` and `sequential`'s `initializer_list<Layer>` cannot hold the concrete layers. The model keeps each layer as a `Dense | ReLU` datatype, and `Networks.Sequential` just wraps the sequence of layers.
