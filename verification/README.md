# Limbed big-integer engine of franklin-crypto, in Dafny

This project models the limb arithmetic of `src/plonk/circuit/bigint/bigint.rs`.
Once the constraint-system types are stripped away, what remains is
natural-number radix arithmetic:

- **Conversions between field elements and integers.** A field element is
  stored as an array of 64-bit words. `repr_to_biguint` and `fe_to_biguint`
  read it back as an integer, `biguint_to_fe` goes the other way, and
  `get_num_bits` computes the exact bit length from the words.
- **`mod_inverse`.** An extended-Euclid inverse. A negative Bézout
  coefficient is moved into `[0, modulus)` by adding the modulus once.
- **The two limb splitters.**
  - `split_into_fixed_width_limbs` returns as many limbs as the value
    needs, most-significant first.
  - `split_into_fixed_number_of_limbs` returns exactly `n` limbs,
    least-significant first.
- **`LimbedRepresentationParameters::new`.** It derives `2^L - 1`,
  `2^C - 1`, the field constants `2^L` and `2^-L`, and the constants `2`
  and `1/2`.
- **`Limb` bookkeeping.** A limb pairs a term with an upper bound
  `max_value`. `inc_max` and `scale_max` change only the bound. `scale`,
  `negate` and `add_constant` change only the term.
- **`LimbedBigUint::get_value`.** It recombines the limbs, with `limbs[0]`
  as the least-significant limb.

The field `E::Fr` is modelled as the integers modulo `p`, with its
elements as naturals below `p`. `PrimeField(modulus, numWords)` records
`p` and the number of 64-bit words in the canonical representation. A
term is an optional field value: `None` stands for a witness that has not
been assigned, which is exactly when the source's `get_value().unwrap()`
panics. A panic becomes an error value. Where several panics are possible
(`mod_inverse`, `LimbedRepresentationParameters::new`), the model returns a
`Result` whose `Failure` names the one that fires. Where only one is
possible (a failed `inverse().unwrap()`, or the division by zero in
`split_into_fixed_width_limbs`), it returns an `Option` that is `None`.

Modules:

- `Arith`: powers of two, Euclidean division facts and bit lengths.
- `Radix`: digit sequences in radix `2^w`.
- `Words`: 64-bit word arrays.
- `ModularInverse`, `Split`, `Field`, `Representation`, `Limbs` and
  `LimbedBigUints`: one module per component of the source file.

Behaviour of the code worth noting:

- `Limb::scale` multiplies the term only and leaves `max_value` as it is
  (lines 141-143).
- `LimbedBigUint::get_value` walks the limbs in reverse and shifts before
  each addition, so `limbs[0]` is the least-significant limb (lines
  289-292).
- `repr_to_biguint` also walks the words in reverse, so word 0 is the
  least significant (lines 179-182).
- `split_into_fixed_width_limbs(0, w)` returns no limbs.

## Model

| member | source | states |
|---|---|---|
| `Arith.Bits` | src/plonk/circuit/bigint/bigint.rs:241-242 | `BigUint::bits`. It is 0 exactly for 0, and otherwise the unique `n` with `2^(n-1) <= v < 2^n`. |
| `Arith.BitsUnique` | src/plonk/circuit/bigint/bigint.rs:95-108 | The bit length is determined by `2^(n-1) <= v < 2^n`. Any `n` satisfying this is the bit length. |
| `Arith.BitsOfPow2` | src/plonk/circuit/bigint/bigint.rs:95-108 | Bit-length exactness: `2^k` has `k+1` bits and `2^k - 1` has `k` bits. |
| `Arith.BitsOfHighWord` | src/plonk/circuit/bigint/bigint.rs:98-104 | Putting a non-zero word `w` above a `k`-bit value gives `k + bits(w)` bits. |
| `Radix.HornerOfReverse` | src/plonk/circuit/bigint/bigint.rs:256-258 | Folding `acc * 2^w + limb` over the reversal of a sequence reads the sequence least-significant first. |
| `Radix.ValueLsbFirstBound` | src/plonk/circuit/bigint/bigint.rs:177-185 | `k` digits below `2^w` encode a value below `2^(w*k)`. |
| `Radix.ValueLsbFirstZeroExtend` | src/plonk/circuit/bigint/bigint.rs:177-185 | Appending zero high words or limbs does not change the recombined value. |
| `Words.LeadingZeros` | src/plonk/circuit/bigint/bigint.rs:102 | `u64::leading_zeros`. It is 64 exactly for 0. Otherwise the highest set bit is bit `63 - r`. |
| `Words.ValueOfTopWord` | src/plonk/circuit/bigint/bigint.rs:98-104 | The bit length of a word array equals `64 * (index of the highest non-zero word) + bits(that word)`. |
| `Words.NumBitsOfRepr` | src/plonk/circuit/bigint/bigint.rs:95-108 | `get_num_bits` returns the exact bit length of the value the words encode with word 0 lowest. The result is 0 exactly for the all-zero array, satisfies `2^(n-1) <= v < 2^n` otherwise, and never exceeds `64 * len`. |
| `Words.ReprToBigUint` | src/plonk/circuit/bigint/bigint.rs:177-185 | `repr_to_biguint` returns `sum w[i] * 2^(64*i)`, so word 0 is least significant. The result is below `2^(64*len)`. |
| `Field.Repr` | src/plonk/circuit/bigint/bigint.rs:220-224 | The canonical word array of an element has `numWords` words and reads back to the element. |
| `Field.GetNumBits` | src/plonk/circuit/bigint/bigint.rs:95-108 | `get_num_bits(el)` is the exact bit length of the element's value. It is 0 exactly for zero and fits the word count. |
| `Field.FeToBigUint` | src/plonk/circuit/bigint/bigint.rs:220-224 | `fe_to_biguint` returns the element's own value. It goes through the modelled `repr_to_biguint` loop. |
| `Field.BigUintToFe` | src/plonk/circuit/bigint/bigint.rs:216-218 | `biguint_to_fe` prints the value in decimal and parses it as a congruent element. The result is below `p`, differs from the value by a multiple of `p`, and is the value itself when the value is below `p`. |
| `Field.ConversionRoundTrip` | src/plonk/circuit/bigint/bigint.rs:216-224 | Converting an element's representation value back with `biguint_to_fe` gives the same element. |
| `Field.BigUintToFeCongruent` | src/plonk/circuit/bigint/bigint.rs:216-218 | Values that differ by a multiple of `p` convert to the same element. |
| `Field.Inverse` | src/plonk/circuit/bigint/bigint.rs:68-73 | `Field::inverse` fails exactly for zero and for elements sharing a factor with `p`. Any result is a true inverse below `p`. |
| `Field.PrimeFieldInverse` | src/plonk/circuit/bigint/bigint.rs:68-73 | In a prime field every non-zero element is invertible, so the `inverse().unwrap()` calls succeed. |
| `Field.PrimeDividesFactor` | src/plonk/circuit/bigint/bigint.rs:66-68 | Euclid's lemma for the field's prime: if `p` divides `a * b` but not `a`, it divides `b`. |
| `Field.MulThenInverse` | src/plonk/circuit/bigint/bigint.rs:64-73 | Multiplying by a constant and then by its inverse returns the element. |
| `ModularInverse.ExtendedGcd` | src/plonk/circuit/bigint/bigint.rs:200 | The extended Euclid result satisfies `gcd == a*x + b*y`. For `b > 0` it has `abs(x) <= b` and `-a <= y <= max(a,1)`. |
| `ModularInverse.ExtendedGcdIsGcd` | src/plonk/circuit/bigint/bigint.rs:200-201 | The gcd returned by the extended algorithm is Euclid's gcd. |
| `ModularInverse.GcdDivides` | src/plonk/circuit/bigint/bigint.rs:200-201 | The gcd divides both arguments. |
| `ModularInverse.CommonDivisorDividesGcd` | src/plonk/circuit/bigint/bigint.rs:200-201 | Every common divisor divides the gcd, so it is the greatest one. |
| `ModularInverse.BezoutStep` | src/plonk/circuit/bigint/bigint.rs:200 | One Euclid step keeps the Bézout identity and the coefficient bounds. |
| `ModularInverse.InverseOfBezout` | src/plonk/circuit/bigint/bigint.rs:202-211 | Adding the modulus once makes a negative coefficient non-negative, so the `expect("must be > 0")` never fires. For modulus > 1 the result is below the modulus and is an inverse. |
| `ModularInverse.ModInverse` | src/plonk/circuit/bigint/bigint.rs:188-214 | `mod_inverse` panics exactly when `el == 0`, and fails its assertion exactly when `gcd(modulus, el) != 1`. Otherwise, for modulus > 1, it returns `y < modulus` with `(y * el) % modulus == 1`. |
| `ModularInverse.InverseExistsImpliesSuccess` | src/plonk/circuit/bigint/bigint.rs:193-201 | Completeness: when some `z` has `(z * el) % m == 1`, with `m > 1`, `mod_inverse` succeeds. |
| `ModularInverse.ModulusOneReturnsOne` | src/plonk/circuit/bigint/bigint.rs:202-211 | With modulus 1 and `el == 1` the code returns 1, which is not below the modulus. |
| `Split.SplitFixedNumber` | src/plonk/circuit/bigint/bigint.rs:262-274 | `split_into_fixed_number_of_limbs` returns exactly `n` limbs, each below `2^w`. |
| `Split.SplitFixedNumberDigit` | src/plonk/circuit/bigint/bigint.rs:267-271 | Limb `i` is `(v / 2^(w*i)) % 2^w`, so the order is least-significant first. |
| `Split.SplitFixedNumberRoundTrip` | src/plonk/circuit/bigint/bigint.rs:262-274 | Recombining the `n` limbs least-significant first gives `v % 2^(w*n)`. |
| `Split.SplitFixedNumberExact` | src/plonk/circuit/bigint/bigint.rs:262-274 | If `v < 2^(w*n)`, recombining the limbs gives back `v`. |
| `Split.SplitFixedNumberHighLimbsZero` | src/plonk/circuit/bigint/bigint.rs:267-271 | Limbs at positions with `w*i >= bits(v)` are 0. |
| `Split.SplitOfValue` | src/plonk/circuit/bigint/bigint.rs:262-274 | The reverse round trip: splitting the value of in-range digits returns those digits. |
| `Split.NumLimbsFor` | src/plonk/circuit/bigint/bigint.rs:241-244 | The limb count `bits/w`, plus one when `w` does not divide `bits`, is `ceil(bits/w)`. The limbs cover `bits`, and one limb fewer would not. |
| `Split.SplitFixedWidth` | src/plonk/circuit/bigint/bigint.rs:240-259 | `split_into_fixed_width_limbs` fails exactly for `w == 0` (division by zero). Otherwise it returns the minimal number of limbs covering `bits(v)`, each below `2^w`. |
| `Split.SplitFixedWidthDigits` | src/plonk/circuit/bigint/bigint.rs:250-258 | Limb `i` of the fixed-width split is digit `len-1-i` of `v`, so the order is most-significant first. |
| `Split.SplitFixedWidthRoundTrip` | src/plonk/circuit/bigint/bigint.rs:240-259 | Folding `acc*2^w + limb` left to right reproduces `v`, and so does reading the reversed limbs least-significant first. |
| `Split.SplitFixedWidthMinimal` | src/plonk/circuit/bigint/bigint.rs:240-259 | Zero gives no limbs. Any other value gives a non-zero leading limb. |
| `Split.SplitExample` | src/plonk/circuit/bigint/bigint.rs:240-274 | With 16-bit limbs, `0x1_2345` splits into `[0x1, 0x2345]` by width and into `[0x2345, 0x1, 0x0]` into three limbs. Reading the first split least-significant first gives a different number. |
| `Representation.New` | src/plonk/circuit/bigint/bigint.rs:58-85 | `new(L, C)` fails its first `inverse().unwrap()` exactly when `2^L mod p` is not coprime to `p`. It fails the second exactly when that one succeeds and `p` is even. On success: `limb_max_value + 1 == 2^L`, `limb_max_intermediate_value + 1 == 2^C`, shift-left is `biguint_to_fe(2^L)`, shift-right is its inverse, and `2 * div_two == 1`. |
| `Representation.ShiftConstant` | src/plonk/circuit/bigint/bigint.rs:64-66 | The shift-left constant is an element below `p`. It is `2^L` itself when `2^L < p`. |
| `Representation.PrimeDoesNotDividePow2` | src/plonk/circuit/bigint/bigint.rs:64-68 | A prime above 2 divides no power of two, so over a prime field the shift constant is never zero. |
| `Representation.NewSucceedsInPrimeField` | src/plonk/circuit/bigint/bigint.rs:64-73 | Over a prime field, `new` succeeds for every `L` and `C`: neither unwrap can fail. |
| `Representation.LimbMaxValueIsBitRange` | src/plonk/circuit/bigint/bigint.rs:62-78 | A value is at most `limb_max_value` (resp. `limb_max_intermediate_value`) exactly when it has at most `L` (resp. `C`) bits. |
| `Representation.ShiftLeftIsExact` | src/plonk/circuit/bigint/bigint.rs:64-66 | Multiplying by the shift-left constant is `x * 2^L` when that product does not wrap around `p`. |
| `Representation.ShiftAndHalveRoundTrip` | src/plonk/circuit/bigint/bigint.rs:64-83 | Shifting left then right by one limb, or doubling then halving, is the identity on elements. |
| `Limbs.MaxBits` | src/plonk/circuit/bigint/bigint.rs:121-123 | `max_bits` is one more than the bit length of `max_value`: `max_value < 2^(n-1)`, and `2^(n-2) <= max_value` when `n >= 2`. |
| `Limbs.MaxBitsCoversValue` | src/plonk/circuit/bigint/bigint.rs:121-123 | If the bound holds, the value fits in `max_bits - 1` bits. |
| `Limbs.IncMax` | src/plonk/circuit/bigint/bigint.rs:125-127 | `inc_max` leaves the term unchanged. Only the bound grows, by `amount`. |
| `Limbs.IncMaxKeepsBound` | src/plonk/circuit/bigint/bigint.rs:125-127 | Raising the bound keeps a valid bound valid. |
| `Limbs.ScaleMax` | src/plonk/circuit/bigint/bigint.rs:129-131 | `scale_max` leaves the term unchanged. Only the bound is multiplied. |
| `Limbs.Scale` | src/plonk/circuit/bigint/bigint.rs:141-143 | `scale` keeps `max_value` and whether a witness is assigned. The value becomes the field product. |
| `Limbs.ScaleAloneLosesBound` | src/plonk/circuit/bigint/bigint.rs:141-143 | Because `scale` ignores the bound, scaling a limb holding 1 with bound 1 by 2 breaks the bound. |
| `Limbs.ScalePairedWithScaleMax` | src/plonk/circuit/bigint/bigint.rs:129-143 | `scale` followed by `scale_max` with the same factor keeps the bound valid when the product does not wrap around `p`. |
| `Limbs.Negate` | src/plonk/circuit/bigint/bigint.rs:145-147 | `negate` keeps `max_value`. The new value is the additive inverse: old + new == 0 in the field. |
| `Limbs.NegateLosesBound` | src/plonk/circuit/bigint/bigint.rs:145-147 | Negating a limb holding 1 with bound 1 breaks the bound, because the result is `p - 1`. |
| `Limbs.AddConstant` | src/plonk/circuit/bigint/bigint.rs:149-151 | `add_constant` keeps `max_value`. The value becomes the field sum. |
| `Limbs.AddConstantPairedWithIncMax` | src/plonk/circuit/bigint/bigint.rs:125-151 | `add_constant(c)` followed by `inc_max(c)` keeps the bound valid when the sum does not wrap around `p`. |
| `Limbs.GetValue` | src/plonk/circuit/bigint/bigint.rs:137-139 | `get_value` is the limb's field value as an integer. It is `None` exactly when the witness is unassigned. |
| `LimbedBigUints.GetValue` | src/plonk/circuit/bigint/bigint.rs:284-295 | `get_value` is defined exactly when every limb is assigned. It then equals `sum limbs[i] * 2^(L*i)`, with index 0 least significant. |
| `LimbedBigUints.FixedNumberSplitRecombines` | src/plonk/circuit/bigint/bigint.rs:262-295 | Limbs stored in the order `split_into_fixed_number_of_limbs` returns them recombine to `v` when `v < 2^(L*n)`. |
| `LimbedBigUints.FixedWidthSplitRecombinesReversed` | src/plonk/circuit/bigint/bigint.rs:240-295 | Limbs from `split_into_fixed_width_limbs` recombine to `v` once reversed. |

## Left out

- `Limb::new` and `Limb::max_value` are the datatype constructor `Limb(term, maxValue)` and its field `maxValue`. They have no member of their own.
- `Limb::is_constant`, `collapse_into_constant`, `collapse_into_num` and `get_field_value` are pass-throughs to the `Term` and constraint-system types (`simple_term.rs`, `allocated_num.rs`), which are not part of this model.
- The `debug_assert` in `get_field_value` is a debug-only sanity check and has no functional effect.
- `LimbedBigUint::is_constant` is never computed in this file, so the datatype has no such field.
- The commented-out `fe_to_raw_biguint`, `fe_to_mont_limbs` and `reduce_if_necessary` are not live code.
- The field library's internals are not modelled: Montgomery form, `E::Fr::char()`, and the decimal `from_str` parser.
- Field.BigUintToFe: the result is the library's documented meaning of `from_str`, the value reduced modulo `p`. The parser's digit loop is not modelled. That loop treats 10 and each digit as field elements, which assumes `p > 10`; every engine's scalar field satisfies this.
- Representation.New: built on `Field.BigUintToFe`, so a shift constant `2^L` at or above `p` is reduced modulo `p` rather than rejected. Over a non-prime modulus the reduced constant may have no inverse, which the `ShiftNotInvertible` failure covers.
- `num_integer::extended_gcd` is replaced by a hand-written extended Euclid. Its coefficient bounds are proved, not assumed.
- ModularInverse.ModInverse: the final `debug_assert!(y < modulus)` is a debug-only check and is not modelled as a failure. The "below the modulus, and an inverse" guarantee is stated only for modulus > 1. `ModulusOneReturnsOne` shows what happens at modulus 1.
- Integer widths: limb widths, capacities and limb counts are unbounded naturals where the source has `usize`. `u64` words are a subset type.
- Generic engines: the model is parameterised by one field `(p, numWords)` instead of by an `Engine` type.
