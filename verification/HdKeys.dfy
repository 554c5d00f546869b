/** Hierarchical keys (BIP 32) over an abstract cyclic group with uninterpreted hashes:
    public and private child derivation, each with its retry on the next index. */
module HdKeys {
  import opened Arith

  datatype Result<T> = Success(value: T) | Failure(error: Error)

  datatype Error = CannotDeriveHardened | InvalidPath | InvalidKey | OutputOutOfRange | NoAddress | WrongAddress

  /** A point of the curve. */
  datatype Point = Infinity | Affine(x: int, y: int)

  /** 32 bytes, as the number they encode. */
  type Digest = nat

  datatype Address = Address(hash: nat)

  datatype ChildHash = ChildHash(left: nat, chainCode: Digest)

  /** The order of the group. */
  type Order = n: nat | n > 1 witness 2

  /** The curve operations and the hashes. */
  datatype Scheme = Scheme(
    n: Order,
    mulG: int -> Point,
    add: (Point, Point) -> Point,
    mul: (Point, int) -> Point,
    childHash: (Point, Digest, nat) -> ChildHash,
    hardenedHash: (nat, Digest, nat, bool) -> ChildHash,
    pointHash: Point -> Digest,
    addressOf: Point -> Address
  )

  /** The points are the multiples of a generator of order n. */
  ghost predicate Cyclic(s: Scheme) {
    && s.mulG(0) == Infinity
    && (forall a, b :: s.mulG(a) == s.mulG(b) <==> a % s.n == b % s.n)
    && (forall a, b :: s.add(s.mulG(a), s.mulG(b)) == s.mulG(a + b))
    && (forall a, k :: s.mul(s.mulG(a), k) == s.mulG(a * k))
  }

  // A concrete group of each order, so that the laws are known to have a model.

  function Multiple(n: Order, k: int): Point {
    if k % n == 0 then Infinity else Affine(k % n, 0)
  }

  function Log(p: Point): int {
    if p == Infinity then 0 else p.x
  }

  lemma LogOfMultiple(n: Order, k: int)
    ensures Log(Multiple(n, k)) == k % n
  {
  }

  lemma MultiplesEqual(n: Order, a: int, b: int)
    ensures Multiple(n, a) == Multiple(n, b) <==> a % n == b % n
    ensures Multiple(n, a % n + b % n) == Multiple(n, a + b)
    ensures Multiple(n, (a % n) * b) == Multiple(n, a * b)
  {
    ModAdd(a, b % n, n);
    ModAdd(b, a, n);
    ModMul(a, b, n);
  }

  function ModelScheme(s: Scheme): Scheme {
    s.(mulG := k => Multiple(s.n, k),
       add := (p, q) => Multiple(s.n, Log(p) + Log(q)),
       mul := (p, k) => Multiple(s.n, Log(p) * k))
  }

  lemma ModelLaws(s: Scheme, a: int, b: int)
    ensures var g := ModelScheme(s);
      (g.mulG(a) == g.mulG(b) <==> a % s.n == b % s.n) &&
      g.add(g.mulG(a), g.mulG(b)) == g.mulG(a + b) && g.mul(g.mulG(a), b) == g.mulG(a * b)
  {
    hide Multiple, Log;
    LogOfMultiple(s.n, a);
    LogOfMultiple(s.n, b);
    MultiplesEqual(s.n, a, b);
  }

  lemma CyclicHasModel(s: Scheme)
    ensures Cyclic(ModelScheme(s)) && ModelScheme(s).n == s.n
  {
    var g := ModelScheme(s);
    ModSmall(0, s.n);
    assert g.mulG(0) == Infinity && g.n == s.n;
    hide Multiple, Log, ModelScheme;
    forall a: int, b: int
      ensures g.mulG(a) == g.mulG(b) <==> a % s.n == b % s.n
    {
      ModelLaws(s, a, b);
    }
    forall a: int, b: int
      ensures g.add(g.mulG(a), g.mulG(b)) == g.mulG(a + b)
    {
      ModelLaws(s, a, b);
    }
    forall a: int, b: int
      ensures g.mul(g.mulG(a), b) == g.mulG(a * b)
    {
      ModelLaws(s, a, b);
    }
  }

  lemma InfinityIff(s: Scheme, a: int)
    requires Cyclic(s)
    ensures s.mulG(a) == Infinity <==> a % s.n == 0
  {
    assert s.mulG(a) == s.mulG(0) <==> a % s.n == 0 % s.n;
    ModSmall(0, s.n);
  }

  lemma MulGReduced(s: Scheme, a: int)
    requires Cyclic(s)
    ensures s.mulG(a % s.n) == s.mulG(a)
  {
    DivMod(a, s.n);
    ModSmall(a % s.n, s.n);
  }

  /** The point of a child: the tweak's multiple of the generator plus the parent. */
  lemma ChildPoint(s: Scheme, left: nat, key: nat)
    requires Cyclic(s)
    ensures s.add(s.mulG(left), s.mulG(key)) == s.mulG((left + key) % s.n)
    ensures s.mulG((left + key) % s.n) == Infinity <==> (left + key) % s.n == 0
  {
    InfinityIff(s, left + key);
    MulGReduced(s, left + key);
  }

  const HARDENED := 0x8000_0000
  const MAX_INDEX := 0x1_0000_0000

  datatype HDPublicKey = HDPublicKey(point: Point, chainCode: Digest, depth: nat, childIndex: nat)

  datatype HDPrivateKey = HDPrivateKey(key: nat, chainCode: Digest, depth: nat, childIndex: nat)

  /** PrivateKey accepts 1 .. n-1. */
  predicate ValidKey(s: Scheme, key: nat) {
    0 < key < s.n
  }

  function PublicOf(s: Scheme, k: HDPrivateKey): HDPublicKey {
    HDPublicKey(s.mulG(k.key), k.chainCode, k.depth, k.childIndex)
  }

  /** HDPublicKey._deriveWithNumber: a child at infinity makes way for the next index. */
  function DerivePublic(s: Scheme, k: HDPublicKey, index: int): (r: Result<HDPublicKey>)
    ensures r.Success? ==> 0 <= index <= r.value.childIndex < HARDENED && r.value.point != Infinity
    decreases HARDENED - index
  {
    if index >= HARDENED then Failure(CannotDeriveHardened)
    else if index < 0 then Failure(InvalidPath)
    else
      var hash := s.childHash(k.point, k.chainCode, index);
      var point := s.add(s.mulG(hash.left), k.point);
      if point == Infinity then DerivePublic(s, k, index + 1)
      else Success(HDPublicKey(point, hash.chainCode, k.depth + 1, index))
  }

  /** Where derivation starts: a hardened request below the hardened indices is moved there. */
  function FirstIndex(index: int, hardened: bool): int {
    if index < HARDENED && hardened then index + HARDENED else index
  }

  predicate ValidIndex(index: int, hardened: bool) {
    0 <= FirstIndex(index, hardened) < MAX_INDEX
  }

  /** HDPrivateKey._deriveWithNumber: an invalid (zero) child key makes way for the next index,
      even if that is a hardened one. */
  function DerivePrivate(s: Scheme, k: HDPrivateKey, index: int, hardened: bool,
      nonCompliant: bool): (r: Result<HDPrivateKey>)
    ensures r.Success? ==> index <= r.value.childIndex && ValidKey(s, r.value.key)
    decreases MAX_INDEX - index
  {
    if !ValidIndex(index, hardened) then Failure(InvalidPath)
    else
      var i := FirstIndex(index, hardened);
      var hash := if hardened || i >= HARDENED then s.hardenedHash(k.key, k.chainCode, i, !nonCompliant)
                  else s.childHash(s.mulG(k.key), k.chainCode, i);
      var key := (hash.left + k.key) % s.n;
      if key == 0 then DerivePrivate(s, k, i + 1, false, nonCompliant)
      else Success(HDPrivateKey(key, hash.chainCode, k.depth + 1, i))
  }

  /** The child at index i is that of a hash: of the secret key from the hardened indices on, of
      the public key below. */
  ghost predicate IsChild(s: Scheme, k: HDPrivateKey, c: HDPrivateKey, nonCompliant: bool) {
    c.depth == k.depth + 1 &&
    exists hash: ChildHash :: c.key == (hash.left + k.key) % s.n && c.chainCode == hash.chainCode &&
      (c.childIndex >= HARDENED ==> hash == s.hardenedHash(k.key, k.chainCode, c.childIndex, !nonCompliant)) &&
      (c.childIndex < HARDENED ==> hash == s.childHash(s.mulG(k.key), k.chainCode, c.childIndex))
  }

  /** Index i has no child, because its key would be zero. */
  predicate Skipped(s: Scheme, k: HDPrivateKey, i: nat, nonCompliant: bool) {
    (i >= HARDENED ==> (s.hardenedHash(k.key, k.chainCode, i, !nonCompliant).left + k.key) % s.n == 0) &&
    (i < HARDENED ==> (s.childHash(s.mulG(k.key), k.chainCode, i).left + k.key) % s.n == 0)
  }

  /** Derivation gives the child at the first index that has one, starting at the index asked
      for, or at its hardened counterpart; there is no other way to fail but that none has. */
  lemma {:induction false} FirstChild(s: Scheme, k: HDPrivateKey, index: int, hardened: bool, nonCompliant: bool)
    requires 0 <= index < MAX_INDEX
    ensures var r := DerivePrivate(s, k, index, hardened, nonCompliant);
      var first := if hardened && index < HARDENED then index + HARDENED else index;
      if r.Success? then
        IsChild(s, k, r.value, nonCompliant) && first <= r.value.childIndex < MAX_INDEX &&
        forall i: nat :: first <= i < r.value.childIndex ==> Skipped(s, k, i, nonCompliant)
      else
        r.error == InvalidPath && forall i: nat :: first <= i < MAX_INDEX ==> Skipped(s, k, i, nonCompliant)
    decreases MAX_INDEX - index
  {
    var i := FirstIndex(index, hardened);
    var hash := if hardened || i >= HARDENED then s.hardenedHash(k.key, k.chainCode, i, !nonCompliant)
                else s.childHash(s.mulG(k.key), k.chainCode, i);
    if (hash.left + k.key) % s.n == 0 {
      assert Skipped(s, k, i, nonCompliant);
      if i + 1 < MAX_INDEX {
        FirstChild(s, k, i + 1, false, nonCompliant);
      }
    }
  }

  /** A hardened child depends on the secret key and its hash only: not on the operations of
      the curve, nor on the hash of public keys. */
  lemma {:induction false} HardenedFromSecret(s: Scheme, s': Scheme, k: HDPrivateKey, index: int, hardened: bool,
      nonCompliant: bool)
    requires s.n == s'.n && s.hardenedHash == s'.hardenedHash
    requires 0 <= index && (hardened || index >= HARDENED)
    ensures DerivePrivate(s, k, index, hardened, nonCompliant) == DerivePrivate(s', k, index, hardened, nonCompliant)
    ensures var r := DerivePrivate(s, k, index, hardened, nonCompliant);
      r.Success? ==> r.value.childIndex >= HARDENED
    decreases MAX_INDEX - index
  {
    if ValidIndex(index, hardened) {
      HardenedFromSecret(s, s', k, FirstIndex(index, hardened) + 1, false, nonCompliant);
    }
  }

  /** A child below the hardened indices does not depend on the hash of secret keys. */
  lemma {:induction false} PublicFromPublic(s: Scheme, s': Scheme, k: HDPrivateKey, index: int, nonCompliant: bool)
    requires s' == s.(hardenedHash := s'.hardenedHash)
    requires var r := DerivePrivate(s, k, index, false, nonCompliant); r.Success? && r.value.childIndex < HARDENED
    ensures DerivePrivate(s', k, index, false, nonCompliant) == DerivePrivate(s, k, index, false, nonCompliant)
    decreases MAX_INDEX - index
  {
    if (s.childHash(s.mulG(k.key), k.chainCode, index).left + k.key) % s.n == 0 {
      PublicFromPublic(s, s', k, index + 1, nonCompliant);
    }
  }

  /** Public and private derivation commute, retries included: the public side gives the
      public key of the private child, whenever that child is not a hardened one, and fails
      otherwise. */
  lemma {:induction false} DerivationCommutes(s: Scheme, k: HDPrivateKey, index: int)
    requires Cyclic(s) && index >= 0
    ensures var r := DerivePrivate(s, k, index, false, false);
      DerivePublic(s, PublicOf(s, k), index) ==
        if r.Success? && r.value.childIndex < HARDENED then Success(PublicOf(s, r.value))
        else Failure(CannotDeriveHardened)
    decreases HARDENED - index
  {
    hide Cyclic;
    if index < HARDENED {
      var hash := s.childHash(s.mulG(k.key), k.chainCode, index);
      ChildPoint(s, hash.left, k.key);
      if (hash.left + k.key) % s.n == 0 {
        DerivationCommutes(s, k, index + 1);
      }
    }
  }

  // ----- paths -----

  function DerivePublicPath(s: Scheme, k: HDPublicKey, path: seq<int>): Result<HDPublicKey>
    decreases |path|
  {
    if path == [] then Success(k) else
      var child := DerivePublic(s, k, path[0]);
      if child.Failure? then child else DerivePublicPath(s, child.value, path[1..])
  }

  function DerivePrivatePath(s: Scheme, k: HDPrivateKey, path: seq<int>): (r: Result<HDPrivateKey>)
    ensures r.Success? && ValidKey(s, k.key) ==> ValidKey(s, r.value.key)
    decreases |path|
  {
    if path == [] then Success(k) else
      var child := DerivePrivate(s, k, path[0], false, false);
      if child.Failure? then child else DerivePrivatePath(s, child.value, path[1..])
  }

  /** No step of the path is hardened, not even after retries. */
  predicate StaysPublic(s: Scheme, k: HDPrivateKey, path: seq<int>)
    decreases |path|
  {
    path == [] ||
    (var child := DerivePrivate(s, k, path[0], false, false);
     child.Success? && child.value.childIndex < HARDENED && StaysPublic(s, child.value, path[1..]))
  }

  /** Along any path of non-negative indices, the public side succeeds exactly when the
      private side stays public, and then reaches the public key of the same child. */
  lemma {:induction false} PathsCommute(s: Scheme, k: HDPrivateKey, path: seq<int>)
    requires Cyclic(s) && forall i :: 0 <= i < |path| ==> path[i] >= 0
    ensures DerivePublicPath(s, PublicOf(s, k), path).Success? <==> StaysPublic(s, k, path)
    ensures StaysPublic(s, k, path) ==>
      var r := DerivePrivatePath(s, k, path);
      r.Success? && DerivePublicPath(s, PublicOf(s, k), path) == Success(PublicOf(s, r.value))
    decreases |path|
  {
    hide Cyclic, DerivePublic, DerivePrivate;
    if path != [] {
      DerivationCommutes(s, k, path[0]);
      var child := DerivePrivate(s, k, path[0], false, false);
      if child.Success? {
        PathsCommute(s, child.value, path[1..]);
      }
    }
  }
}
