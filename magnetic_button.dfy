/** The magnetic button (`MagneticButton` in app/page.tsx). While the pointer
    moves over the button its offset `(x, y)` is set to 0.3 times the pointer's
    displacement from the centre of the button's bounding rectangle; when the
    pointer leaves, both components are set back to 0. */
module MagneticButton {
  import opened Numbers

  /** The fraction of the pointer's displacement the button follows. */
  const Pull: real := 0.3

  /** A bounding client rectangle, as `getBoundingClientRect` reports it. */
  datatype Rect = Rect(left: real, top: real, width: real, height: real)

  datatype Offset = Offset(x: real, y: real)

  /** The two handlers the button installs: `onMouseMove` with the event's client
      coordinates and the rectangle read at that moment, and `onMouseLeave`. */
  datatype PointerEvent = Move(clientX: real, clientY: real, rect: Rect) | Leave

  /** The offset along one axis for a pointer at `pointer` over a box that starts
      at `start` and is `size` long: it points from the box's centre toward the
      pointer, is zero exactly when the pointer is at the centre, and is shorter
      than the pointer's displacement. */
  function Attraction(pointer: real, start: real, size: real): (o: real)
    ensures o == 0.0 <==> pointer == start + size / 2.0
    ensures o > 0.0 <==> pointer > start + size / 2.0
    ensures Abs(o) <= Abs(pointer - (start + size / 2.0))
  {
    var centre := start + size / 2.0;
    (pointer - centre) * Pull
  }

  /** The offset after one handler has run; `previous` is what it was before. */
  function Handle(previous: Offset, e: PointerEvent): Offset {
    match e
    case Move(clientX, clientY, rect) =>
      Offset(Attraction(clientX, rect.left, rect.width), Attraction(clientY, rect.top, rect.height))
    case Leave => Offset(0.0, 0.0)
  }

  /** The offset after running the handlers for `events` in order. */
  function Replay(start: Offset, events: seq<PointerEvent>): Offset
    decreases |events|
  {
    if |events| == 0 then start else Replay(Handle(start, events[0]), events[1..])
  }

  lemma {:induction false} ReplaySnoc(start: Offset, events: seq<PointerEvent>, e: PointerEvent)
    ensures Replay(start, events + [e]) == Handle(Replay(start, events), e)
    decreases |events|
  {
    if |events| > 0 {
      assert (events + [e])[1..] == events[1..] + [e];
      ReplaySnoc(Handle(start, events[0]), events[1..], e);
    }
  }

  /** The offset depends only on the latest event: whatever the offset was
      before, a non-empty sequence of events leaves the offset that its last
      event alone would set. */
  lemma {:induction false} LatestEventDecides(start: Offset, events: seq<PointerEvent>)
    requires |events| > 0
    ensures Replay(start, events) == Handle(Offset(0.0, 0.0), events[|events| - 1])
    decreases |events|
  {
    if |events| > 1 {
      LatestEventDecides(Handle(start, events[0]), events[1..]);
    }
  }

  /** A pointer displaced by `(dx, dy)` from the centre moves the button by
      `(0.3 * dx, 0.3 * dy)`; at the centre it stays at `(0, 0)`. */
  lemma DisplacementScaled(previous: Offset, rect: Rect, dx: real, dy: real)
    ensures Handle(previous, Move(rect.left + rect.width / 2.0 + dx, rect.top + rect.height / 2.0 + dy, rect))
         == Offset(Pull * dx, Pull * dy)
  {
  }

  /** One mounted button: `x` and `y` are its two motion values. The ghost
      `events` records every handler call made on it. */
  class Button {
    var x: real
    var y: real
    ghost var events: seq<PointerEvent>

    ghost predicate Valid()
      reads this
    {
      Offset(x, y) == Replay(Offset(0.0, 0.0), events)
    }

    constructor ()
      ensures Valid() && events == []
      ensures x == 0.0 && y == 0.0
    {
      x, y := 0.0, 0.0;
      events := [];
    }

    /** `handleMouse`: track the pointer relative to the rectangle's centre. */
    method HandleMouse(clientX: real, clientY: real, rect: Rect)
      requires Valid()
      modifies this
      ensures Valid() && events == old(events) + [Move(clientX, clientY, rect)]
      ensures x == Attraction(clientX, rect.left, rect.width)
      ensures y == Attraction(clientY, rect.top, rect.height)
    {
      var centreX := rect.left + rect.width / 2.0;
      var centreY := rect.top + rect.height / 2.0;
      x := (clientX - centreX) * Pull;
      y := (clientY - centreY) * Pull;
      ReplaySnoc(Offset(0.0, 0.0), events, Move(clientX, clientY, rect));
      events := events + [Move(clientX, clientY, rect)];
    }

    /** `reset`: the pointer left, so the offset returns to rest. */
    method Reset()
      requires Valid()
      modifies this
      ensures Valid() && events == old(events) + [Leave]
      ensures x == 0.0 && y == 0.0
    {
      x, y := 0.0, 0.0;
      ReplaySnoc(Offset(0.0, 0.0), events, Leave);
      events := events + [Leave];
    }
  }
}
