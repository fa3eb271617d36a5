/** Small shared vocabulary: optional values, results, and sequence helpers. */
module Base {

  datatype Option<+T> = None | Some(value: T)

  /** A step that either produced a value or failed with a message (Go's `(T, error)` pair). */
  datatype Result<+T> = Ok(value: T) | Err(message: string)

  lemma ConcatAssoc<T>(a: seq<T>, b: seq<T>, c: seq<T>)
    ensures (a + b) + c == a + (b + c)
  {
  }

  /** Concatenation of a sequence of sequences, in order. */
  function Flatten<T>(xss: seq<seq<T>>): seq<T>
  {
    if xss == [] then [] else xss[0] + Flatten(xss[1..])
  }

  lemma {:induction false} FlattenAppend<T>(a: seq<seq<T>>, b: seq<seq<T>>)
    ensures Flatten(a + b) == Flatten(a) + Flatten(b)
  {
    if a == [] {
      assert a + b == b;
    } else {
      assert (a + b)[1..] == a[1..] + b;
      FlattenAppend(a[1..], b);
    }
  }

  lemma FlattenCons<T>(x: seq<T>, ys: seq<seq<T>>)
    ensures Flatten([x] + ys) == x + Flatten(ys)
  {
    assert ([x] + ys)[1..] == ys;
  }

  /** Each inner sequence followed by one `spacer`. */
  function CloseEach<T>(xss: seq<seq<T>>, spacer: T): (yss: seq<seq<T>>)
    ensures |yss| == |xss|
  {
    seq(|xss|, i requires 0 <= i < |xss| => xss[i] + [spacer])
  }

  lemma CloseEachCons<T>(x: seq<T>, ys: seq<seq<T>>, spacer: T)
    ensures CloseEach([x] + ys, spacer) == [x + [spacer]] + CloseEach(ys, spacer)
  {
  }

  lemma FlattenCloseCons<T>(x: seq<T>, ys: seq<seq<T>>, spacer: T)
    ensures Flatten(CloseEach([x] + ys, spacer)) == x + [spacer] + Flatten(CloseEach(ys, spacer))
  {
    CloseEachCons(x, ys, spacer);
    FlattenCons(x + [spacer], CloseEach(ys, spacer));
  }

  /** Every element of every inner sequence occurs in the flattening. */
  lemma {:induction false} FlattenMember<T>(xss: seq<seq<T>>, i: nat, j: nat)
    requires i < |xss| && j < |xss[i]|
    ensures xss[i][j] in Flatten(xss)
  {
    if i > 0 {
      FlattenMember(xss[1..], i - 1, j);
    }
  }

  /** Number of positions of `xs` that hold `x`. */
  function Count<T(==)>(xs: seq<T>, x: T): nat
  {
    if xs == [] then 0 else (if xs[0] == x then 1 else 0) + Count(xs[1..], x)
  }

  lemma {:induction false} CountAppend<T>(a: seq<T>, b: seq<T>, x: T)
    ensures Count(a + b, x) == Count(a, x) + Count(b, x)
  {
    if a == [] {
      assert a + b == b;
    } else {
      assert (a + b)[1..] == a[1..] + b;
      CountAppend(a[1..], b, x);
    }
  }

  lemma {:induction false} CountAbsent<T>(xs: seq<T>, x: T)
    requires forall i :: 0 <= i < |xs| ==> xs[i] != x
    ensures Count(xs, x) == 0
  {
    if xs != [] {
      CountAbsent(xs[1..], x);
    }
  }

  /** Lines laid out as blocks, each closed by one `spacer` line: a spacer never comes first,
      never follows another spacer, and a non-empty layout ends with one. */
  predicate SpacerClosed<T(==)>(lines: seq<T>, spacer: T)
  {
    && (forall i :: 0 <= i < |lines| && lines[i] == spacer ==> i > 0 && lines[i - 1] != spacer)
    && (lines != [] ==> lines[|lines| - 1] == spacer)
  }

  /** Empty, or at least one non-spacer line closed by exactly one spacer. */
  predicate ClosedBlock<T(==)>(b: seq<T>, spacer: T)
  {
    b == [] || (|b| >= 2 && b[|b| - 1] == spacer && forall i :: 0 <= i < |b| - 1 ==> b[i] != spacer)
  }

  /** A block of non-spacer lines closed by one spacer, put in front of such blocks. */
  lemma PrependBlock<T>(b: seq<T>, r: seq<T>, spacer: T)
    requires ClosedBlock(b, spacer)
    requires SpacerClosed(r, spacer)
    ensures SpacerClosed(b + r, spacer)
    ensures Count(b + r, spacer) == (if b == [] then 0 else 1) + Count(r, spacer)
  {
    CountAppend(b, r, spacer);
    if b != [] {
      var front := b[..|b| - 1];
      assert b == front + [spacer];
      CountAppend(front, [spacer], spacer);
      CountAbsent(front, spacer);
      assert Count([spacer], spacer) == 1 + Count([], spacer);
      var x := b + r;
      forall i | 0 <= i < |x| && x[i] == spacer
        ensures i > 0 && x[i - 1] != spacer
      {
        if i >= |b| {
          assert x[i] == r[i - |b|];
        }
      }
    } else {
      assert b + r == r;
    }
  }
}
