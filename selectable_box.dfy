/** The message handler of the selectable grid box
    (src/modules/grid/components/SelectableBox.tsx): two flags, `over` and
    `selected`, driven by the messages addressed to the box's current id,
    and the animations each message starts. */
module SelectableBoxes {
  import opened Wrappers

  datatype BoxMessage = Over | Select | Off | Unselect

  datatype BoxPackage = BoxPackage(id: string, message: BoxMessage)

  /** The animations the handler starts. `Push` is the two-step press
      (scale 1.12, then 1.24); `ScaleTo` and `OpacityTo` are single eased
      transitions of the box and of its highlight layer. */
  datatype Animation = ScaleTo(scale: real) | Push | OpacityTo(opacity: real)

  const RaisedScale: real := 1.24
  const RestScale: real := 1.0
  const HighlightOpacity: real := 0.6
  const NoHighlight: real := 0.0

  datatype BoxFlags = BoxFlags(over: bool, selected: bool)

  /** What one package does to the flags of the box named `id`, and the
      animations it starts, in the order they are started. */
  function Respond(flags: BoxFlags, id: string, next: BoxPackage): (r: (BoxFlags, seq<Animation>))
    ensures next.id != id <==> r.1 == []
    ensures next.id != id ==> r.0 == flags
    ensures |r.1| <= 2
  {
    if next.id != id then (flags, [])
    else
      match next.message
      case Over => (flags.(over := true), [ScaleTo(RaisedScale)])
      case Off => (flags.(over := false), [ScaleTo(RestScale)])
      case Select => (flags.(selected := true), [Push, OpacityTo(HighlightOpacity)])
      case Unselect =>
        (flags.(selected := false), [if flags.over then Push else ScaleTo(RestScale), OpacityTo(NoHighlight)])
  }

  /** A package for another id changes nothing and starts nothing. */
  lemma ForeignPackageIgnored(flags: BoxFlags, id: string, next: BoxPackage)
    requires next.id != id
    ensures Respond(flags, id, next) == (flags, [])
  {
  }

  /** `over` / `off` set the hover flag and leave the selection. */
  lemma HoverMessages(flags: BoxFlags, id: string, m: BoxMessage)
    requires m == Over || m == Off
    ensures Respond(flags, id, BoxPackage(id, m)).0 == BoxFlags(m == Over, flags.selected)
  {
  }

  /** `select` / `unselect` set the selection and leave the hover flag. */
  lemma SelectionMessages(flags: BoxFlags, id: string, m: BoxMessage)
    requires m == Select || m == Unselect
    ensures Respond(flags, id, BoxPackage(id, m)).0 == BoxFlags(flags.over, m == Select)
  {
  }

  /** The press animation runs on `select`, and on `unselect` exactly when
      the box is hovered; otherwise `unselect` puts the scale back to 1. */
  lemma PushWhen(flags: BoxFlags, id: string, m: BoxMessage)
    ensures Push in Respond(flags, id, BoxPackage(id, m)).1 <==> m == Select || (m == Unselect && flags.over)
    ensures m == Unselect && !flags.over ==> ScaleTo(RestScale) in Respond(flags, id, BoxPackage(id, m)).1
  {
  }

  /** The scale the box is last sent to. */
  function FinalScale(animations: seq<Animation>): real
  {
    if animations == [] then RestScale
    else
      match animations[|animations| - 1]
      case ScaleTo(s) => s
      case Push => RaisedScale
      case OpacityTo(_) => FinalScale(animations[..|animations| - 1])
  }

  /** Except after `select`, a message that starts a scale leaves the box
      raised exactly when it is hovered. */
  lemma ScaleFollowsHover(flags: BoxFlags, id: string, m: BoxMessage)
    requires m != Select
    ensures var (after, animations) := Respond(flags, id, BoxPackage(id, m));
            FinalScale(animations) == if after.over then RaisedScale else RestScale
  {
    var animations := Respond(flags, id, BoxPackage(id, m)).1;
    if m == Unselect {
      assert animations[..1] == [animations[0]];
    }
  }

  /** The highlight layer shows exactly the selection after `select` or
      `unselect`. */
  lemma HighlightFollowsSelection(flags: BoxFlags, id: string, m: BoxMessage)
    requires m == Select || m == Unselect
    ensures var (after, animations) := Respond(flags, id, BoxPackage(id, m));
            |animations| > 0 && animations[|animations| - 1] ==
              OpacityTo(if after.selected then HighlightOpacity else NoHighlight)
  {
  }

  /** The flags after a run of packages, all handled under the same id. */
  function Run(flags: BoxFlags, id: string, packages: seq<BoxPackage>): BoxFlags
    decreases |packages|
  {
    if packages == [] then flags
    else Run(Respond(flags, id, packages[0]).0, id, packages[1..])
  }

  /** Reference definition: the last `select` / `unselect` addressed to
      `id`, as whether it selects. */
  function LastSelection(id: string, packages: seq<BoxPackage>): Option<bool>
  {
    if packages == [] then None
    else
      var p := packages[|packages| - 1];
      if p.id == id && (p.message == Select || p.message == Unselect) then Some(p.message == Select)
      else LastSelection(id, packages[..|packages| - 1])
  }

  /** Reference definition: the last `over` / `off` addressed to `id`, as
      whether it hovers. */
  function LastHover(id: string, packages: seq<BoxPackage>): Option<bool>
  {
    if packages == [] then None
    else
      var p := packages[|packages| - 1];
      if p.id == id && (p.message == Over || p.message == Off) then Some(p.message == Over)
      else LastHover(id, packages[..|packages| - 1])
  }

  lemma {:induction false} RunSnoc(flags: BoxFlags, id: string, packages: seq<BoxPackage>, p: BoxPackage)
    ensures Run(flags, id, packages + [p]) == Respond(Run(flags, id, packages), id, p).0
    decreases |packages|
  {
    if packages != [] {
      assert (packages + [p])[1..] == packages[1..] + [p];
      RunSnoc(Respond(flags, id, packages[0]).0, id, packages[1..], p);
    }
  }

  /** After a run, the box is selected exactly when the last selection
      message for it was `select` (no such message: as before), and hovered
      exactly when the last hover message for it was `over`. */
  lemma {:induction false} RunDecidedByLastMessages(flags: BoxFlags, id: string, packages: seq<BoxPackage>)
    ensures Run(flags, id, packages).selected ==
            match LastSelection(id, packages) case Some(b) => b case None => flags.selected
    ensures Run(flags, id, packages).over ==
            match LastHover(id, packages) case Some(b) => b case None => flags.over
  {
    if packages != [] {
      var init, p := packages[..|packages| - 1], packages[|packages| - 1];
      assert packages == init + [p];
      RunDecidedByLastMessages(flags, id, init);
      RunSnoc(flags, id, init, p);
    }
  }

  /** `select` then `unselect` restores an unselected box, whatever else it
      is sent to other ids in between. */
  lemma SelectThenUnselect(flags: BoxFlags, id: string, others: seq<BoxPackage>)
    requires !flags.selected
    requires forall k :: 0 <= k < |others| ==> others[k].id != id
    ensures Run(flags, id, [BoxPackage(id, Select)] + others + [BoxPackage(id, Unselect)]).selected == flags.selected
  {
    var packages := [BoxPackage(id, Select)] + others + [BoxPackage(id, Unselect)];
    RunDecidedByLastMessages(flags, id, packages);
  }

  /** The box component's state: the two flags and the id messages are
      matched against. */
  class SelectableBox {
    var over: bool
    var selected: bool
    var id: string

    /** Both flags start false. */
    constructor(id: string)
      ensures this.id == id && !over && !selected
    {
      this.id := id;
      over := false;
      selected := false;
    }

    function Flags(): BoxFlags
      reads this
    {
      BoxFlags(over, selected)
    }

    /** The effect on an `id` change: later packages are matched against
        the new id; the flags stay. */
    method SetId(newId: string)
      modifies this
      ensures id == newId && over == old(over) && selected == old(selected)
    {
      id := newId;
    }

    /** The subscription callback for one package. */
    method Handle(next: BoxPackage) returns (animations: seq<Animation>)
      modifies this
      ensures id == old(id)
      ensures (Flags(), animations) == Respond(old(Flags()), old(id), next)
    {
      animations := [];
      if next.id == id {
        match next.message
        case Over =>
          over := true;
          animations := [ScaleTo(RaisedScale)];
        case Off =>
          over := false;
          animations := [ScaleTo(RestScale)];
        case Select =>
          animations := [Push];
          selected := true;
          animations := animations + [OpacityTo(HighlightOpacity)];
          assert animations == [Push, OpacityTo(HighlightOpacity)];
        case Unselect =>
          if over {
            animations := [Push];
          } else {
            animations := [ScaleTo(RestScale)];
          }
          ghost var first := animations[0];
          selected := false;
          animations := animations + [OpacityTo(NoHighlight)];
          assert animations == [first, OpacityTo(NoHighlight)];
      }
    }
  }
}
