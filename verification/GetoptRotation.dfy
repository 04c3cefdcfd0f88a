/** The block exchange of externals/getopt/getopt.c: rotating a stretch of `argv`
    in place by repeatedly swapping its shorter end into position. */
module GetoptRotation {

  /** The meaning of the exchange: the block [b, c) moves in front of the block [a, b). */
  function Rotated<T>(s: seq<T>, a: nat, b: nat, c: nat): (r: seq<T>)
    requires a <= b <= c <= |s|
    ensures |r| == |s|
  {
    s[..a] + s[b..c] + s[a..b] + s[c..]
  }

  /** Where each element of a rotated sequence comes from. */
  lemma RotatedAt<T>(s: seq<T>, a: nat, b: nat, c: nat, k: nat)
    requires a <= b <= c <= |s| && k < |s|
    ensures Rotated(s, a, b, c)[k] == if a <= k < a + (c - b) then s[k - a + b]
                                      else if a + (c - b) <= k < c then s[k - (c - b)]
                                      else s[k]
  {
  }

  /** Two disjoint blocks of equal length trade places. */
  ghost predicate BlocksSwapped<T>(s: seq<T>, r: seq<T>, i: nat, j: nat, n: nat)
    requires i + n <= j && j + n <= |s|
  {
    && |r| == |s|
    && forall x {:trigger r[x]} :: 0 <= x < |s| ==>
         r[x] == if i <= x < i + n then s[x - i + j] else if j <= x < j + n then s[x - j + i] else s[x]
  }

  // The loop of lines 84-89 and of lines 96-101.
  method SwapBlocks<T>(argv: array<T>, i: nat, j: nat, n: nat)
    requires i + n <= j && j + n <= argv.Length
    modifies argv
    ensures BlocksSwapped(old(argv[..]), argv[..], i, j, n)
  {
    for k := 0 to n
      invariant forall x {:trigger argv[x]} :: 0 <= x < argv.Length ==>
        argv[x] == if i <= x < i + k then old(argv[x - i + j])
                   else if j <= x < j + k then old(argv[x - j + i])
                   else old(argv[x])
    {
      argv[i + k], argv[j + k] := argv[j + k], argv[i + k];
    }
  }

  /** Swapping the short left block with the right end leaves the same rotation to do. */
  lemma RotateAfterLeftSwap<T>(s: seq<T>, r: seq<T>, bottom: nat, middle: nat, top: nat)
    requires bottom <= middle && middle - bottom < top - middle && top <= |s|
    requires BlocksSwapped(s, r, bottom, top - (middle - bottom), middle - bottom)
    ensures Rotated(r, bottom, middle, top - (middle - bottom)) == Rotated(s, bottom, middle, top)
  {
    hide Rotated;
    forall k | 0 <= k < |s|
      ensures Rotated(r, bottom, middle, top - (middle - bottom))[k] == Rotated(s, bottom, middle, top)[k]
    {
      RotatedAt(r, bottom, middle, top - (middle - bottom), k);
      RotatedAt(s, bottom, middle, top, k);
    }
  }

  /** Swapping the short right block with the left end leaves the same rotation to do. */
  lemma RotateAfterRightSwap<T>(s: seq<T>, r: seq<T>, bottom: nat, middle: nat, top: nat)
    requires bottom <= middle <= top <= |s| && top - middle <= middle - bottom
    requires BlocksSwapped(s, r, bottom, middle, top - middle)
    ensures Rotated(r, bottom + (top - middle), middle, top) == Rotated(s, bottom, middle, top)
  {
    hide Rotated;
    forall k | 0 <= k < |s|
      ensures Rotated(r, bottom + (top - middle), middle, top)[k] == Rotated(s, bottom, middle, top)[k]
    {
      RotatedAt(r, bottom + (top - middle), middle, top, k);
      RotatedAt(s, bottom, middle, top, k);
    }
  }

  /** Once either block is empty there is nothing left to rotate. */
  lemma RotateNothing<T>(s: seq<T>, bottom: nat, middle: nat, top: nat)
    requires bottom <= middle <= top <= |s| && (bottom == middle || middle == top)
    ensures Rotated(s, bottom, middle, top) == s
  {
  }

  // One pass of the loop at lines 78-104: it swaps the shorter block into its final place.
  method ExchangePass<T>(argv: array<T>, bottom: nat, middle: nat, top: nat) returns (bottom': nat, top': nat)
    requires bottom < middle < top <= argv.Length
    modifies argv
    ensures bottom <= bottom' <= middle <= top' <= top && top' - bottom' < top - bottom
    ensures Rotated(argv[..], bottom', middle, top') == Rotated(old(argv[..]), bottom, middle, top)
  {
    hide Rotated, BlocksSwapped;
    bottom', top' := bottom, top;
    if top - middle > middle - bottom {
      var len := middle - bottom;
      SwapBlocks(argv, bottom, top - (middle - bottom), len);
      RotateAfterLeftSwap(old(argv[..]), argv[..], bottom, middle, top);
      top' := top - len;
    } else {
      var len := top - middle;
      SwapBlocks(argv, bottom, middle, len);
      RotateAfterRightSwap(old(argv[..]), argv[..], bottom, middle, top);
      bottom' := bottom + len;
    }
  }

  /** An exact rotation in place; nothing outside [first, optind) moves. */
  method Exchange<T>(argv: array<T>, first: nat, last: nat, optind: nat)
    requires first <= last <= optind <= argv.Length
    modifies argv
    ensures argv[..] == Rotated(old(argv[..]), first, last, optind)
  {
    var bottom, middle, top := first, last, optind;
    hide Rotated;
    ghost var goal := Rotated(argv[..], first, last, optind);
    while top > middle && middle > bottom
      invariant first <= bottom <= middle <= top <= optind
      invariant Rotated(argv[..], bottom, middle, top) == goal
      decreases top - bottom
    {
      bottom, top := ExchangePass(argv, bottom, middle, top);
    }
    RotateNothing(argv[..], bottom, middle, top);
  }
}
