# conflux finite-field elements and sets, in Dafny

This project models the finite-field layer of hockeypuck's set-reconciliation library, conflux
(`src/hockeypuck/conflux/zp.go`). It covers two entities.

- `Zp` is an integer of the field Z(p): a value and a modulus. The arithmetic methods update it in
  place.
- `ZSet` is a set of field values. It is kept as a map from each value's base-10 numeral to the value,
  together with the modulus of the set. The first element added fixes that modulus.

The model follows the Go code.

- Module `Field` has the class `Zp`:
  - Its fields `i` (the value) and `p` (the modulus, 0 standing for Go's nil modulus) are updated by
    methods with `modifies this`.
  - `Valid()` says the value lies in [0, p). Every constructor establishes it and every method keeps
    it.
  - A `big.Int` panic caused by a nil modulus, and the `assertP` panic on mismatched moduli, become
    `requires` clauses of the operations that would panic.
- Module `Sets` has the class `ZSet`:
  - Its map `s` and modulus `p` are updated by the methods.
  - `Members()` is the set of values in the map.
  - `Valid()` says that every key is the numeral of its value. With that, set membership by key is
    the same as membership by value.
  - `InField()` says every member lies below the modulus. `Add` keeps it when v is bound. `AddAll` is
    proved to keep it when the set had no modulus or the two moduli agree. `AddAll` never compares
    them, so merging members of a larger field can break it.
- Module `Arith` holds the integer facts behind the arithmetic:
  - Euclid's gcd and Bezout coefficients;
  - the modular inverse that `big.Int.ModInverse` computes;
  - square-and-multiply exponentiation;
  - lemmas about Dafny's Euclidean `%`, which agrees with `big.Int.Mod`.
- Module `Encoding` holds the two renderings of a value:
  - the byte string of `Bytes`: minimal big-endian bytes, reversed to little-endian by the `reversed`
    loop;
  - the base-10 numeral of `String`, with a parser for it that plays the part of `SetString`.
- Module `Scenarios` works the field example p = 11 and a small set difference, using only the
  contracts above.

`Inv` and `Div` give the caller no signal for a non-invertible value: `Inv` calls
`big.Int.ModInverse`. When gcd(x, p) ≠ 1, that call returns nil and leaves the receiver
unchanged, and `Inv` ignores the nil. The model follows the code. `Zp.Inv` leaves the value as it
was, and `Zp.Div` then computes x · y.

## Model

| member | source | states |
|---|---|---|
| Arith.ModInverse | src/hockeypuck/conflux/zp.go:255-258 | an inverse modulo n exists exactly when gcd(g, n) = 1, and the one returned lies in [0, n) and multiplies g to 1 |
| Arith.InvertibleIffCoprime | src/hockeypuck/conflux/zp.go:255-258 | x has an inverse modulo n if and only if x and n are coprime |
| Arith.InvertibleIsCoprime | src/hockeypuck/conflux/zp.go:255-258 | any y that inverts x modulo n forces gcd(x, n) = 1 |
| Arith.InverseUnique | src/hockeypuck/conflux/zp.go:255-258 | two inverses of x in [0, n) are equal |
| Arith.InverseInvolutive | src/hockeypuck/conflux/zp.go:255-258 | inverting the inverse of a unit gives the unit back |
| Arith.GcdDivides | src/hockeypuck/conflux/zp.go:255-258 | the gcd divides both arguments, and it is 0 only when both are 0 |
| Arith.Bezout | src/hockeypuck/conflux/zp.go:255-258 | coefficients s, t with a·s + b·t = gcd(a, b) |
| Arith.DivisionRoundTrip | src/hockeypuck/conflux/zp.go:270-272 | (x · y⁻¹) · y = x modulo n for every x in [0, n) |
| Arith.SubUndoesAdd | src/hockeypuck/conflux/zp.go:228-243 | subtracting y undoes adding y modulo m |
| Arith.AddUndoesSub | src/hockeypuck/conflux/zp.go:228-243 | adding y undoes subtracting y modulo m |
| Arith.ModPow | src/hockeypuck/conflux/zp.go:262-267 | square-and-multiply gives b^e mod m |
| Arith.PowAdd | src/hockeypuck/conflux/zp.go:262-267 | b^(i+j) = b^i · b^j, the step square-and-multiply relies on |
| Encoding.Reversed | src/hockeypuck/conflux/zp.go:167-174 | the loop fills a new buffer with the input in the opposite order, index by index |
| Encoding.RevAt | src/hockeypuck/conflux/zp.go:167-174 | element k of the reversal is element len-1-k of the input, and the length is kept |
| Encoding.RevInvolution | src/hockeypuck/conflux/zp.go:199-202 | reversing twice gives the input back, so SetBytes undoes the reversal that Bytes applies |
| Encoding.BigEndianRoundTrip | src/hockeypuck/conflux/zp.go:187-189 | the minimal big-endian bytes of n read back as n |
| Encoding.MinimalBigEndianIsMinimal | src/hockeypuck/conflux/zp.go:187-189 | the encoding has no leading zero byte and as few bytes as n needs, and 0 encodes as no bytes |
| Encoding.CanonicalBigEndian | src/hockeypuck/conflux/zp.go:199-202 | a byte string without a leading zero is the minimal encoding of its own value |
| Encoding.DecimalDigits | src/hockeypuck/conflux/zp.go:281-283 | the numeral is non-empty, all digits, without a leading zero, and denotes n |
| Encoding.DecimalRoundTrip | src/hockeypuck/conflux/zp.go:110-118 | parsing a value's numeral as base 10 gives the value back |
| Encoding.DecimalInjective | src/hockeypuck/conflux/zp.go:352 | different values have different numerals, so the numeral can key a value |
| Field.Zp.Unbound | src/hockeypuck/conflux/zp.go:73-80 | the zero value: 0 and no field |
| Field.Zp.Z | src/hockeypuck/conflux/zp.go:83-85 | 0 in the field q |
| Field.Zp.Zzp | src/hockeypuck/conflux/zp.go:88-92 | a new element with the same value and field |
| Field.Zp.Zi | src/hockeypuck/conflux/zp.go:95-100 | a 64-bit integer reduced into [0, q), so a negative n yields n mod q and an n already in range is kept |
| Field.Zp.Zb | src/hockeypuck/conflux/zp.go:103-107 | the little-endian bytes read as an integer and reduced mod q |
| Field.Zp.Zs | src/hockeypuck/conflux/zp.go:110-118 | a base-10 literal with an optional sign, reduced mod q; a string that does not parse is refused (the source panics) |
| Field.Zp.Zrand | src/hockeypuck/conflux/zp.go:137-156 | the entropy bytes, as many as q's minimal encoding, read big-endian and reduced mod q |
| Field.Zarray | src/hockeypuck/conflux/zp.go:159-165 | n distinct new elements, each a copy of v in v's field |
| Field.Zp.Bytes | src/hockeypuck/conflux/zp.go:187-189 | the reversed minimal big-endian bytes: they decode back to the value, the last byte is non-zero, and the length is the fewest bytes that hold the value |
| Field.BytesRoundTrip | src/hockeypuck/conflux/zp.go:187-202 | SetBytes of the bytes of a value in [0, q) restores the value |
| Field.Zp.Set | src/hockeypuck/conflux/zp.go:192-196 | the element takes x's value and field |
| Field.Zp.SetBytes | src/hockeypuck/conflux/zp.go:199-202 | the reversed bytes read big-endian, reduced mod p; the field is kept |
| Field.Zp.Copy | src/hockeypuck/conflux/zp.go:205-207 | a new element equal in value and field |
| Field.Zp.Norm | src/hockeypuck/conflux/zp.go:210-213 | the value becomes value mod p, and an element already in range is unchanged |
| Field.Zp.Cmp | src/hockeypuck/conflux/zp.go:217-220 | -1, 0 or 1 as the value is below, equal to or above x's; both must share one field |
| Field.Zp.IsZero | src/hockeypuck/conflux/zp.go:223-225 | true exactly for the value 0, which in a field is the class of multiples of p |
| Field.Zp.Add | src/hockeypuck/conflux/zp.go:228-234 | the value becomes (x + y) mod p in x's field, and subtracting y again gives x |
| Field.Zp.Sub | src/hockeypuck/conflux/zp.go:237-243 | the value becomes (x - y) mod p in x's field, and adding y again gives x |
| Field.Zp.Mul | src/hockeypuck/conflux/zp.go:246-252 | the value becomes (x · y) mod p in x's field |
| Field.Zp.Inv | src/hockeypuck/conflux/zp.go:255-258 | a value coprime to p becomes its inverse; any other value is left unchanged |
| Field.Zp.Exp | src/hockeypuck/conflux/zp.go:262-267 | the value becomes x^y mod p in x's field |
| Field.Zp.Div | src/hockeypuck/conflux/zp.go:270-272 | for a y coprime to p the value becomes x · y⁻¹, so multiplying by y gives x back; otherwise x · y; y itself is not changed |
| Field.Zp.Neg | src/hockeypuck/conflux/zp.go:275-279 | the value becomes (p - x) mod p: it adds to x to give 0, 0 stays 0, and negating again gives x |
| Field.Zp.String | src/hockeypuck/conflux/zp.go:281-283 | the unsigned base-10 numeral, all digits and without a leading zero (0 is "0"), that parses back to the value |
| Field.Zp.In | src/hockeypuck/conflux/zp.go:291-305 | an unbound element is bound to q; a bound one must already be in q (the source panics otherwise); the value is kept |
| Sets.KeyOfValue | src/hockeypuck/conflux/zp.go:361-364 | a value is a member exactly when its numeral is a key, and that key holds the value |
| Sets.PutValue | src/hockeypuck/conflux/zp.go:352 | storing a value under its numeral adds exactly that value and keeps the map keyed by numerals |
| Sets.DeleteValue | src/hockeypuck/conflux/zp.go:357 | deleting a value's numeral removes exactly that value |
| Sets.KeyedSize | src/hockeypuck/conflux/zp.go:338-343 | the number of keys equals the number of distinct members |
| Sets.KeysAndValues | src/hockeypuck/conflux/zp.go:371-376 | one map's keys lie within another's exactly when its values do |
| Sets.SameValues | src/hockeypuck/conflux/zp.go:367-378 | equal key counts and key inclusion hold exactly when the member sets are equal |
| Sets.ZSet.NewZSet | src/hockeypuck/conflux/zp.go:321-327 | the members are the values of the elements, and the field is that of the first element (none for no elements) |
| Sets.ZSet.NewZSetSlice | src/hockeypuck/conflux/zp.go:329-335 | the same for a slice of elements |
| Sets.Len | src/hockeypuck/conflux/zp.go:338-343 | the number of distinct members, and 0 for a nil set |
| Sets.ZSet.Add | src/hockeypuck/conflux/zp.go:346-353 | the members gain v's value; an unbound set takes v's field, a bound one requires it; adding a member again leaves the map as it was |
| Sets.ZSet.Remove | src/hockeypuck/conflux/zp.go:356-358 | the members lose v's value and nothing else, and the field is kept |
| Sets.ZSet.Contains | src/hockeypuck/conflux/zp.go:361-364 | true exactly when v's value is a member |
| Sets.ZSet.Equal | src/hockeypuck/conflux/zp.go:367-378 | true exactly when both sets have the same members |
| Sets.ZSet.AddSlice | src/hockeypuck/conflux/zp.go:381-385 | the members gain every value of the slice |
| Sets.ZSet.AddAll | src/hockeypuck/conflux/zp.go:388-395 | the members become the union, an unbound set takes the other's field, and values below the modulus stay so when the fields agree |
| Sets.ZSet.RemoveSlice | src/hockeypuck/conflux/zp.go:398-402 | the members lose every value of the slice, and the field is kept |
| Sets.ZSet.RemoveAll | src/hockeypuck/conflux/zp.go:405-412 | the members become the difference, and an unbound set takes the other's field |
| Sets.Items | src/hockeypuck/conflux/zp.go:415-427 | nil for a nil set; otherwise a new slice of Len new elements in the set's field, holding each member exactly once, each valid when the members lie in the field |
| Sets.ElementsOf | src/hockeypuck/conflux/zp.go:419-426 | the loop of Items: one new element per map entry, covering every value, none twice |
| Sets.ItemsCover | src/hockeypuck/conflux/zp.go:421-425 | a repeat-free listing of all the map's values, copied in order into elements, covers exactly the members |
| Sets.ZSetDiff | src/hockeypuck/conflux/zp.go:468-482 | a new set of the members of a that are not members of b, in a's field if a has one and b's otherwise |

## Left out

- Modulus constants: P_128, P_160, P_256, P_512 and P_SKS (zp.go:33-69) are plain data. The model takes any positive modulus, and the field need not be prime: only `Inv` and `Div` depend on gcd(x, p).
- Zp.P, Zp.Int64 and Zp.FullKeyHash (hex of the bytes) are getters and formatting that change nothing. They are not part of this model.
- The String methods of ZSet and ZpSlice are debug formatting. They are not part of this model.
- randbits is not called from the modelled code. It is not part of this model.
- Randomness: randint reads from crypto/rand. Zrand takes those bytes as a parameter, so the model does not capture where they come from.
- Go returns the receiver from Norm, Set, Add and the other methods so that calls can be chained. The Dafny methods return nothing: the caller already holds the receiver.
- Items: the order of the returned slice follows Go's map iteration, which is random. The model fixes some order and promises none.
- A ZSet whose map is nil, such as a `ZSet{}` literal, cannot be modelled, because writing to a nil Go map panics. Every modelled set is built by NewZSet or NewZSetSlice, which make the map.
- Field.Zp.Inv: follows big.Int.ModInverse as it behaves since Go 1.13 (the receiver is unchanged when no inverse exists). Earlier Go versions produced a different value.
- Sets.ZSet.NewZSet: requires every element to be in the first element's field. The source also accepts unbound elements ahead of the first bound one, and this precondition excludes them.
- Sets.ZSet.NewZSetSlice: the same precondition as NewZSet.
- Sets.ZSet.AddSlice: the same precondition, measured against the set's field or the first element's.
- Field.Zarray: the modulus parameter is ignored, as it is in the source. Each element takes v's modulus.
- Sets.ZSet.Add: the source leaves the size unchanged when a member is added again. The model states the stronger fact that the map is unchanged, and Sets.Len gives the size.
- Arguments must satisfy `Valid()` (value in [0, p)). The source never checks this. Every constructor and every Zp method yields a valid element, with one exception: Items on a set into which AddAll merged members of a larger field returns elements whose value is not below their modulus, so Sets.Items promises `Valid()` only under `InField()`.
- Concurrency is not modelled. The source gives no guarantee when a set is mutated while Items iterates over it.
- pq/worker_test.go exercises conflux only through the reconciliation protocol. It is not part of this model.
