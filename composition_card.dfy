/** The face-up state of one card on the board (Solitaire/CompositionCard.cpp) and
    its hit test. The card's visuals (front and back shapes, the sides container and
    the compositor animation) are not modelled; what is kept is the logical flag
    `isFaceUp`, the rotation the flag asks the sides container to show, and the
    number of flip animations that have been started. */
module CompositionCards {

  /** The rotation about the vertical axis that shows the front (0 degrees) or the
      back (180 degrees) of a card. */
  function RotationFor(faceUp: bool): (degrees: int)
    ensures degrees == 0 || degrees == 180
    ensures faceUp <==> degrees == 0
  {
    if faceUp then 0 else 180
  }

  class CompositionCard {
    /** m_isFaceUp: the logical face-up flag that the game reads. */
    var isFaceUp: bool
    /** The RotationAngleInDegrees last set on the container of the two sides. */
    var rotation: int
    /** How many flip animations AnimateIsFaceUp has started on the sides container. */
    var flipAnimations: nat

    /** The card's initial flag comes from its header's member initialiser, which is
        not part of this model, so it is a parameter; the sides container starts
        unrotated and no animation has run. */
    constructor (faceUp: bool)
      ensures isFaceUp == faceUp && rotation == 0 && flipAnimations == 0
    {
      isFaceUp := faceUp;
      rotation := 0;
      flipAnimations := 0;
    }

    /** The sides container shows the side that the flag names. */
    predicate ShowsFlag()
      reads this
    {
      rotation == RotationFor(isFaceUp)
    }

    /** IsFaceUp(b): sets the flag and turns the sides container to match at once;
        asking for the side already shown changes nothing. */
    method IsFaceUp(faceUp: bool)
      modifies this
      ensures isFaceUp == faceUp
      ensures old(isFaceUp) != faceUp ==> rotation == RotationFor(faceUp)
      ensures old(isFaceUp) == faceUp ==> rotation == old(rotation)
      ensures flipAnimations == old(flipAnimations)
      ensures old(ShowsFlag()) ==> ShowsFlag()
    {
      if isFaceUp != faceUp {
        isFaceUp := faceUp;
        rotation := RotationFor(isFaceUp);
      }
    }

    /** AnimateIsFaceUp(b, duration, delay): the flag changes at once and a flip
        animation is started; the rotation itself is left to the animation. Asking
        for the side already shown neither changes the flag nor starts anything. */
    method AnimateIsFaceUp(faceUp: bool)
      modifies this
      ensures isFaceUp == faceUp
      ensures rotation == old(rotation)
      ensures flipAnimations == old(flipAnimations) + (if old(isFaceUp) != faceUp then 1 else 0)
    {
      if isFaceUp != faceUp {
        isFaceUp := faceUp;
        flipAnimations := flipAnimations + 1;
      }
    }
  }

  /** A point or a size in the card's parent space. */
  datatype Vector2 = Vector2(x: real, y: real)

  /** CompositionCard::HitTest: is `point` inside the card whose root visual sits at
      `offset` with extent `size`? Both edges at the offset belong to the card, the
      far edges do not. Only a card of positive extent can be hit. */
  predicate HitTest(offset: Vector2, size: Vector2, point: Vector2): (hit: bool)
    ensures hit ==> size.x > 0.0 && size.y > 0.0
  {
    offset.x <= point.x < offset.x + size.x && offset.y <= point.y < offset.y + size.y
  }

  /** The corner at the offset belongs to a card of positive size; the far corner and
      the far edges never do. */
  lemma HitTestEdges(offset: Vector2, size: Vector2, t: real)
    ensures HitTest(offset, size, offset) <==> size.x > 0.0 && size.y > 0.0
    ensures !HitTest(offset, size, Vector2(offset.x + size.x, t))
    ensures !HitTest(offset, size, Vector2(t, offset.y + size.y))
  {
  }

  /** Because the box is half-open, cards laid out in a row with a pitch of at least
      their width never both claim a point: the one whose offset is further along
      wins nothing that the nearer one has. */
  lemma {:induction false} RowHitIsUnique(origin: Vector2, size: Vector2, pitch: real, i: nat, j: nat, point: Vector2)
    requires size.x <= pitch
    requires HitTest(Vector2(origin.x + i as real * pitch, origin.y), size, point)
    requires HitTest(Vector2(origin.x + j as real * pitch, origin.y), size, point)
    ensures i == j
  {
    if i < j {
      NoPointInTwoSlots(origin.x, size.x, pitch, i, j, point.x);
      assert false;
    } else if j < i {
      NoPointInTwoSlots(origin.x, size.x, pitch, j, i, point.x);
      assert false;
    }
  }

  /** No x lies both in slot `lo` and in a later slot `hi`. */
  lemma NoPointInTwoSlots(x0: real, width: real, pitch: real, lo: nat, hi: nat, x: real)
    requires lo < hi && 0.0 <= width <= pitch
    ensures !(x0 + lo as real * pitch <= x < x0 + lo as real * pitch + width
              && x0 + hi as real * pitch <= x < x0 + hi as real * pitch + width)
  {
    var near, far := x0 + lo as real * pitch, x0 + hi as real * pitch;
    var d := hi as real - lo as real;
    assert far - near == d * pitch;
    StretchAtLeast(d, pitch);
    assert near + width <= far;
  }

  /** Stretching a non-negative length by a factor of at least one does not shorten it. */
  lemma StretchAtLeast(d: real, p: real)
    requires d >= 1.0 && p >= 0.0
    ensures d * p >= p
  {
    var e := d - 1.0;
    assert d * p == p + e * p;
    assert e * p >= 0.0;
  }
}
