/**
 * The middleware chain: an ordered list of `(func, path, err, mask)` records.
 * A request is handed the records whose mask shares a bit with the request's
 * method flag and whose path is the request path, in the order they were added.
 */
module MiddlewareChain {
  import opened Wrappers

  /**
   * A middleware function. `id` stands for the object's identity (two records
   * are the same object exactly when they are equal), `arity` is the number of
   * parameters its signature declares, and `isRouter` says it is a Router.
   */
  datatype Func = Func(id: nat, arity: nat, isRouter: bool)

  /** `MiddlewareTuple`. */
  datatype Entry = Entry(func: Func, path: string, err: bool, mask: nat)

  type Chain = seq<Entry>

  /** Indexing the last element of an empty list. */
  datatype ChainError = IndexError

  /** The mask `last_router` gives the default router: every method flag. */
  const AllMethods: nat := 0xFFF

  function Pow2(k: nat): (r: nat)
    ensures r >= 1
  {
    if k == 0 then 1 else 2 * Pow2(k - 1)
  }

  /** Python's `&` on non-negative ints, bit by bit from the lowest. */
  function BitAnd(a: nat, b: nat): (r: nat)
    decreases a
    ensures r <= a && r <= b
  {
    if a == 0 || b == 0 then 0
    else 2 * BitAnd(a / 2, b / 2) + (if a % 2 == 1 && b % 2 == 1 then 1 else 0)
  }

  /** Bit `k` of `n`, counting from the lowest, is set. */
  predicate Bit(n: nat, k: nat)
    decreases k
  {
    if k == 0 then n % 2 == 1 else Bit(n / 2, k - 1)
  }

  lemma {:induction false} ZeroHasNoBit(k: nat)
    ensures !Bit(0, k)
    decreases k
  {
    if k > 0 {
      ZeroHasNoBit(k - 1);
    }
  }

  /** Bit `k` of `a & b` is set exactly when it is set in both `a` and `b`. */
  lemma {:induction false} BitAndBit(a: nat, b: nat, k: nat)
    ensures Bit(BitAnd(a, b), k) <==> Bit(a, k) && Bit(b, k)
    decreases k
  {
    if a == 0 || b == 0 {
      ZeroHasNoBit(k);
    } else if k > 0 {
      var low := if a % 2 == 1 && b % 2 == 1 then 1 else 0;
      assert BitAnd(a, b) == 2 * BitAnd(a / 2, b / 2) + low;
      assert BitAnd(a, b) / 2 == BitAnd(a / 2, b / 2);
      BitAndBit(a / 2, b / 2, k - 1);
    }
  }

  /** A positive number has a set bit. */
  lemma {:induction false} NonZeroHasBit(n: nat) returns (k: nat)
    requires n != 0
    ensures Bit(n, k)
    decreases n
  {
    if n % 2 == 1 {
      k := 0;
    } else {
      var j := NonZeroHasBit(n / 2);
      k := j + 1;
    }
  }

  /** `a & b` is non-zero exactly when `a` and `b` have a set bit in common. */
  lemma BitAndShares(a: nat, b: nat)
    ensures BitAnd(a, b) != 0 <==> exists k: nat :: Bit(a, k) && Bit(b, k)
  {
    if BitAnd(a, b) != 0 {
      var k := NonZeroHasBit(BitAnd(a, b));
      BitAndBit(a, b, k);
    } else {
      forall k: nat ensures !(Bit(a, k) && Bit(b, k)) {
        BitAndBit(a, b, k);
        ZeroHasNoBit(k);
      }
    }
  }

  /** A mask of the `k` lowest bits keeps every flag below `2^k` whole. */
  lemma {:induction false} BitAndLowBits(m: nat, k: nat)
    requires m < Pow2(k)
    ensures BitAnd(m, Pow2(k) - 1) == m
  {
    if m != 0 {
      var mask := Pow2(k) - 1;
      assert k > 0;
      assert mask / 2 == Pow2(k - 1) - 1 && mask % 2 == 1;
      BitAndLowBits(m / 2, k - 1);
    }
  }

  /** The default router's mask keeps every method flag from 1 to 0xFFF, so it matches it. */
  lemma AllMethodsKeeps(m: nat)
    requires m <= AllMethods
    ensures BitAnd(m, AllMethods) == m
  {
    assert Pow2(12) == 0x1000;
    BitAndLowBits(m, 12);
  }

  /** The test in `__call__`: the method shares a flag with the mask, and the path is the same. */
  predicate Matches(e: Entry, httpMethod: nat, path: string) {
    BitAnd(httpMethod, e.mask) != 0 && e.path == path
  }

  /** An entry matches exactly when its path is the request path and its mask has a flag of the method set. */
  lemma MatchesSharedFlag(e: Entry, httpMethod: nat, path: string)
    ensures Matches(e, httpMethod, path) <==> e.path == path && exists k: nat :: Bit(httpMethod, k) && Bit(e.mask, k)
  {
    BitAndShares(httpMethod, e.mask);
  }

  /** A method of 0, or an entry with mask 0, never matches. */
  lemma ZeroNeverMatches(e: Entry, httpMethod: nat, path: string)
    requires httpMethod == 0 || e.mask == 0
    ensures !Matches(e, httpMethod, path)
  {
  }

  /** `__call__(method, path)`: the entries that match, in the order they were added. */
  function Lookup(chain: Chain, httpMethod: nat, path: string): (r: Chain)
    decreases |chain|
    ensures |r| <= |chain|
    ensures forall e :: e in r <==> e in chain && Matches(e, httpMethod, path)
  {
    if |chain| == 0 then []
    else (if Matches(chain[0], httpMethod, path) then [chain[0]] else []) + Lookup(chain[1..], httpMethod, path)
  }

  /** Looking up in two lists one after the other yields the two lookups one after the other: order is kept. */
  lemma {:induction false} LookupAppend(a: Chain, b: Chain, httpMethod: nat, path: string)
    ensures Lookup(a + b, httpMethod, path) == Lookup(a, httpMethod, path) + Lookup(b, httpMethod, path)
    decreases |a|
  {
    if |a| == 0 {
      assert a + b == b;
    } else {
      assert (a + b)[1..] == a[1..] + b;
      LookupAppend(a[1..], b, httpMethod, path);
    }
  }

  /** A single entry is yielded exactly when it matches. */
  lemma LookupSingle(e: Entry, httpMethod: nat, path: string)
    ensures Lookup([e], httpMethod, path) == if Matches(e, httpMethod, path) then [e] else []
  {
    assert [e][1..] == [];
  }

  /** With method 0 nothing is ever yielded. */
  lemma {:induction false} LookupZero(chain: Chain, path: string)
    ensures Lookup(chain, 0, path) == []
    decreases |chain|
  {
    if |chain| > 0 {
      LookupZero(chain[1..], path);
    }
  }

  /** `__call__` as the generator loop it is, collecting what it yields. */
  method Call(chain: Chain, httpMethod: nat, path: string) returns (out: Chain)
    ensures out == Lookup(chain, httpMethod, path)
  {
    out := [];
    var i := 0;
    while i < |chain|
      invariant 0 <= i <= |chain|
      invariant out == Lookup(chain[..i], httpMethod, path)
    {
      var mw := chain[i];
      LookupAppend(chain[..i], [mw], httpMethod, path);
      LookupSingle(mw, httpMethod, path);
      assert chain[..i + 1] == chain[..i] + [mw];
      if BitAnd(httpMethod, mw.mask) != 0 && mw.path == path {
        out := out + [mw];
      }
      i := i + 1;
    }
    assert chain[..i] == chain;
  }

  /**
   * `add(method_mask, path, func)`: one entry at the end, flagged as an error
   * handler exactly when the function takes three parameters; every earlier
   * entry stays where it was.
   */
  function Add(chain: Chain, mask: nat, path: string, func: Func): (r: Chain)
    ensures |r| == |chain| + 1 && r[..|chain|] == chain
    ensures r[|chain|].func == func && r[|chain|].path == path && r[|chain|].mask == mask
    ensures r[|chain|].err <==> func.arity == 3
  {
    chain + [Entry(func, path, func.arity == 3, mask)]
  }

  /** After `add`, a lookup yields what it yielded before, then the new entry if it matches. */
  lemma LookupAfterAdd(chain: Chain, mask: nat, path: string, func: Func, httpMethod: nat, p: string)
    ensures var e := Entry(func, path, func.arity == 3, mask);
      Lookup(Add(chain, mask, path, func), httpMethod, p)
      == Lookup(chain, httpMethod, p) + (if BitAnd(httpMethod, mask) != 0 && path == p then [e] else [])
  {
    var e := Entry(func, path, func.arity == 3, mask);
    LookupAppend(chain, [e], httpMethod, p);
    LookupSingle(e, httpMethod, p);
  }

  /** `func in chain`: some stored entry holds that same function object. */
  function Contains(chain: Chain, func: Func): (r: bool)
    decreases |chain|
    ensures r <==> exists k :: 0 <= k < |chain| && chain[k].func == func
  {
    if |chain| == 0 then false
    else if chain[0].func == func then true
    else
      assert forall k :: 0 < k < |chain| ==> chain[k] == chain[1..][k - 1];
      Contains(chain[1..], func)
  }

  /** After `add(.., func)`, the chain contains `func`, and every other function it contained before and no more. */
  lemma ContainsAfterAdd(chain: Chain, mask: nat, path: string, func: Func, g: Func)
    ensures Contains(Add(chain, mask, path, func), g) <==> Contains(chain, g) || g == func
  {
    var r := Add(chain, mask, path, func);
    if Contains(chain, g) {
      var k :| 0 <= k < |chain| && chain[k].func == g;
      assert r[k] == chain[k];
    }
    if Contains(r, g) && g != func {
      var k :| 0 <= k < |r| && r[k].func == g;
      assert k < |chain| && r[k] == chain[k];
    }
    assert r[|chain|].func == func;
  }

  /**
   * `last_router(router)`, where `router` is the `Router()` the call would
   * construct. An empty chain has no last entry: IndexError. When the last
   * entry's function is already a Router, the chain is left alone and that
   * function is returned; otherwise the router is added for every method
   * under `/` and returned.
   */
  function LastRouter(chain: Chain, router: Func): (r: Result<(Chain, Func), ChainError>)
    requires router.isRouter
    ensures r.Failure? <==> |chain| == 0
    ensures r.Success? ==>
      var (c, f) := r.value;
      && |c| >= |chain| > 0 && c[|c| - 1].func == f && f.isRouter
      && c[..|chain|] == chain
      && (chain[|chain| - 1].func.isRouter ==> c == chain)
      && (!chain[|chain| - 1].func.isRouter ==>
            c == Add(chain, AllMethods, "/", router) && f == router)
  {
    if |chain| == 0 then Failure(IndexError)
    else if chain[|chain| - 1].func.isRouter then Success((chain, chain[|chain| - 1].func))
    else
      var c := Add(chain, AllMethods, "/", router);
      Success((c, c[|c| - 1].func))
  }

  /** A second `last_router` changes nothing and returns the same router. */
  lemma LastRouterIdempotent(chain: Chain, router: Func, other: Func)
    requires router.isRouter && other.isRouter
    requires LastRouter(chain, router).Success?
    ensures LastRouter(LastRouter(chain, router).value.0, other) == LastRouter(chain, router)
  {
  }

  /**
   * When `last_router` had to add the router, every request for `/` with a
   * method flag from 1 to 0xFFF reaches it, after all it reached before.
   */
  lemma AddedRouterCatchesAll(chain: Chain, router: Func, httpMethod: nat)
    requires router.isRouter && |chain| > 0 && !chain[|chain| - 1].func.isRouter
    requires 0 < httpMethod <= AllMethods
    ensures var c := LastRouter(chain, router).value.0;
      Lookup(c, httpMethod, "/") == Lookup(chain, httpMethod, "/") + [c[|c| - 1]]
  {
    AllMethodsKeeps(httpMethod);
    LookupAfterAdd(chain, AllMethods, "/", router, httpMethod, "/");
  }
}
