/**
  The three kinds of rule an entry node can hold (yes/no text, list line,
  talk target), their match patterns, and the validity judgement the
  settings window shows for each entry.
 */
module Rules {

  import opened Results

  /**
    A match pattern.  `isRegex` says the pattern is meant as a regular
    expression and `compiled` whether a compiled regex exists for it; both
    are worked out by the entry classes from the text, outside this model,
    so they are plain inputs here.
   */
  datatype Pattern = Pattern(text: string, isRegex: bool, compiled: bool)

  /** A pattern for a fixed literal text (the default texts are not regexes). */
  function Literal(s: string): Pattern
  {
    Pattern(s, false, false)
  }

  datatype Rule =
    | TextRule(enabled: bool, text: Pattern, isYes: bool, zoneRestricted: bool, zone: Pattern)
    | ListRule(enabled: bool, text: Pattern, targetRestricted: bool, target: Pattern)
    | TalkRule(enabled: bool, target: Pattern)

  /** The part of a rule whose pattern is unusable. */
  datatype Fault = BadText | BadZone | BadTarget

  /** A pattern can be used unless it is a regex that has no compiled form. */
  predicate Usable(p: Pattern)
  {
    (p.isRegex && p.compiled) || !p.isRegex
  }

  /**
    The faulty parts of a rule, judged the way the entry views judge them:
    the match text always counts, a zone or list target only while its
    restriction is on, and a talk target always.
   */
  function Faults(r: Rule): (fs: set<Fault>)
    ensures BadText in fs <==> !r.TalkRule? && r.text.isRegex && !r.text.compiled
    ensures BadZone in fs <==> r.TextRule? && r.zoneRestricted && r.zone.isRegex && !r.zone.compiled
    ensures BadTarget in fs <==>
              && (r.TalkRule? || (r.ListRule? && r.targetRestricted))
              && r.target.isRegex && !r.target.compiled
  {
    match r
    case TextRule(_, text, _, zoneRestricted, zone) =>
      var validRegex := Usable(text);
      var validZone := !zoneRestricted || Usable(zone);
      (if validRegex then {} else {BadText}) + (if validZone then {} else {BadZone})
    case ListRule(_, text, targetRestricted, target) =>
      var validRegex := Usable(text);
      var validTarget := !targetRestricted || Usable(target);
      (if validRegex then {} else {BadText}) + (if validTarget then {} else {BadTarget})
    case TalkRule(_, target) =>
      if Usable(target) then {} else {BadTarget}
  }

  /** The tooltip an entry shows; none when nothing is faulty. */
  function Warning(r: Rule): (w: Option<string>)
    ensures w.None? <==> Faults(r) == {}
    ensures r.TextRule? && BadText in Faults(r) && BadZone in Faults(r) ==>
              w == Some("Invalid Text and Zone Regex")
    ensures r.ListRule? && BadText in Faults(r) && BadTarget in Faults(r) ==>
              w == Some("Invalid Text and Target Regex")
    ensures Faults(r) == {BadText} ==> w == Some("Invalid Text Regex")
    ensures Faults(r) == {BadZone} ==> w == Some("Invalid Zone Regex")
    ensures Faults(r) == {BadTarget} ==> w == Some("Invalid Target Regex")
  {
    var fs := Faults(r);
    var badText := BadText in fs;
    match r
    case TextRule(_, _, _, _, _) =>
      var badZone := BadZone in fs;
      if badText && badZone then Some("Invalid Text and Zone Regex")
      else if badText then Some("Invalid Text Regex")
      else if badZone then Some("Invalid Zone Regex")
      else None
    case ListRule(_, _, _, _) =>
      var badTarget := BadTarget in fs;
      if badText && badTarget then Some("Invalid Text and Target Regex")
      else if badText then Some("Invalid Text Regex")
      else if badTarget then Some("Invalid Target Regex")
      else None
    case TalkRule(_, _) =>
      if BadTarget in fs then Some("Invalid Target Regex") else None
  }

  /** The text colour of an entry line in the tree. */
  datatype Shade = Normal | Grey | Red | DarkRed

  function ShadeOf(r: Rule): (s: Shade)
    ensures s == Normal <==> r.enabled && Faults(r) == {}
    ensures s == Grey <==> !r.enabled && Faults(r) == {}
    ensures s == Red <==> r.enabled && Faults(r) != {}
    ensures s == DarkRed <==> !r.enabled && Faults(r) != {}
  {
    var valid := Faults(r) == {};
    if !r.enabled && !valid then DarkRed
    else if !r.enabled then Grey
    else if !valid then Red
    else Normal
  }

  /**
    A double click on an entry flips its enable flag and nothing else;
    doing it twice restores the rule.
   */
  function Toggled(r: Rule): (t: Rule)
    ensures t.enabled == !r.enabled
    ensures t.(enabled := r.enabled) == r
    ensures Faults(t) == Faults(r)
  {
    r.(enabled := !r.enabled)
  }

  /** The popup's "Click Yes" / "Click No" button on a yes/no rule. */
  function FlipYes(r: Rule): (t: Rule)
    requires r.TextRule?
    ensures t.TextRule? && t.isYes == !r.isYes
    ensures t.(isYes := r.isYes) == r
  {
    r.(isYes := !r.isYes)
  }

  /**
    The zone text the "Fill with current zone" button stores: the name the
    territory table gives the current territory, or a fixed notice.
   */
  function ZoneFill(territories: map<nat, string>, current: nat): (s: string)
    ensures current in territories ==> s == territories[current]
    ensures current !in territories ==> s == "Could not find name"
  {
    if current in territories then territories[current] else "Could not find name"
  }

  /**
    The target text the "Fill with current target" buttons store: the
    current target's name when there is one with a non-empty name, or a
    fixed notice.
   */
  function TargetFill(name: Option<string>): (s: string)
    ensures name.Some? && name.value != "" ==> s == name.value
    ensures name.None? || name.value == "" ==> s == "Could not find target"
  {
    var n := match name case Some(v) => v case None => "";
    if n != "" then n else "Could not find target"
  }

  /**
    One edit made through an entry's popup: the enabled checkbox, the
    yes/no button, the match text, the zone restriction and zone text, the
    list target restriction and the target text, and the two "Fill with
    current ..." buttons, which carry the game state they read.  Each
    widget is shown only for the kinds of rule that have the field, so an
    edit aimed at a field the rule does not have leaves it alone.
   */
  datatype Edit =
    | SetEnabled(on: bool)
    | SwapYesNo
    | SetText(p: Pattern)
    | SetZoneRestricted(on: bool)
    | SetZone(p: Pattern)
    | SetTargetRestricted(on: bool)
    | SetTarget(p: Pattern)
    | FillZone(territories: map<nat, string>, current: nat)
    | FillTarget(name: Option<string>)

  /**
    The rule after an edit.  It stays the same kind of rule, and only the
    validity of the edited part can change.
   */
  function Apply(r: Rule, e: Edit): (t: Rule)
    ensures t.TextRule? == r.TextRule? && t.ListRule? == r.ListRule? && t.TalkRule? == r.TalkRule?
    ensures t.enabled == if e.SetEnabled? then e.on else r.enabled
    ensures !e.SetText? ==> (BadText in Faults(t) <==> BadText in Faults(r))
    ensures !e.SetZone? && !e.SetZoneRestricted? && !e.FillZone? ==> (BadZone in Faults(t) <==> BadZone in Faults(r))
    ensures !e.SetTarget? && !e.SetTargetRestricted? && !e.FillTarget? ==> (BadTarget in Faults(t) <==> BadTarget in Faults(r))
    ensures e.SetText? && !r.TalkRule? ==> (BadText in Faults(t) <==> !Usable(e.p))
    ensures e.SetZoneRestricted? && !e.on ==> BadZone !in Faults(t)
    ensures e.SetTargetRestricted? && !e.on && r.ListRule? ==> BadTarget !in Faults(t)
    ensures e.SwapYesNo? && r.TextRule? ==> t.isYes == !r.isYes
    ensures e.SetText? && !r.TalkRule? ==> t.text == e.p
    ensures e.SetZone? && r.TextRule? ==> t.zone == e.p && (BadZone in Faults(t) <==> r.zoneRestricted && !Usable(e.p))
    ensures e.SetZoneRestricted? && r.TextRule? ==> t.zoneRestricted == e.on && (BadZone in Faults(t) <==> e.on && !Usable(r.zone))
    ensures e.SetTarget? && !r.TextRule? ==> t.target == e.p
    ensures e.SetTarget? && r.TalkRule? ==> (BadTarget in Faults(t) <==> !Usable(e.p))
    ensures e.SetTarget? && r.ListRule? ==> (BadTarget in Faults(t) <==> r.targetRestricted && !Usable(e.p))
    ensures e.SetTargetRestricted? && r.ListRule? ==> t.targetRestricted == e.on && (BadTarget in Faults(t) <==> e.on && !Usable(r.target))
    ensures e.FillZone? && r.TextRule? ==> t.zone == Literal(ZoneFill(e.territories, e.current)) && BadZone !in Faults(t)
    ensures e.FillTarget? && !r.TextRule? ==> t.target == Literal(TargetFill(e.name)) && BadTarget !in Faults(t)
    // Each widget writes its own field and no other.
    ensures e.SetEnabled? ==> t.(enabled := r.enabled) == r
    ensures e.SwapYesNo? && r.TextRule? ==> t.(isYes := r.isYes) == r
    ensures e.SetText? && !r.TalkRule? ==> t.(text := r.text) == r
    ensures (e.SetZone? || e.FillZone?) && r.TextRule? ==> t.(zone := r.zone) == r
    ensures e.SetZoneRestricted? && r.TextRule? ==> t.(zoneRestricted := r.zoneRestricted) == r
    ensures (e.SetTarget? || e.FillTarget?) && !r.TextRule? ==> t.(target := r.target) == r
    ensures e.SetTargetRestricted? && r.ListRule? ==> t.(targetRestricted := r.targetRestricted) == r
    // A widget the rule's kind does not show changes nothing.
    ensures (e.SwapYesNo? || e.SetZone? || e.SetZoneRestricted? || e.FillZone?) && !r.TextRule? ==> t == r
    ensures e.SetText? && r.TalkRule? ==> t == r
    ensures e.SetTargetRestricted? && !r.ListRule? ==> t == r
    ensures (e.SetTarget? || e.FillTarget?) && r.TextRule? ==> t == r
  {
    match e
    case SetEnabled(on) => r.(enabled := on)
    case SwapYesNo => if r.TextRule? then FlipYes(r) else r
    case SetText(p) => if r.TalkRule? then r else r.(text := p)
    case SetZoneRestricted(on) => if r.TextRule? then r.(zoneRestricted := on) else r
    case SetZone(p) => if r.TextRule? then r.(zone := p) else r
    case SetTargetRestricted(on) => if r.ListRule? then r.(targetRestricted := on) else r
    case SetTarget(p) => if r.TextRule? then r else r.(target := p)
    case FillZone(territories, current) =>
      if r.TextRule? then r.(zone := Literal(ZoneFill(territories, current))) else r
    case FillTarget(name) => if r.TextRule? then r else r.(target := Literal(TargetFill(name)))
  }

  /**
    "Fill with current zone" stores the territory's name, or the notice when
    the table does not know the territory; the stored text is a literal, so
    any zone fault is cleared and the rest of the rule's validity stays.
   */
  lemma FillZoneSpec(r: Rule, territories: map<nat, string>, current: nat)
    requires r.TextRule?
    ensures var t := Apply(r, FillZone(territories, current));
            && (current in territories ==> t.zone.text == territories[current])
            && (current !in territories ==> t.zone.text == "Could not find name")
            && !t.zone.isRegex
            && Faults(t) == Faults(r) - {BadZone}
  {
  }

  /**
    "Fill with current target", on a list or talk entry, stores the
    target's name when it has a non-empty one and the notice otherwise; the
    stored text is a literal, so any target fault is cleared and the rest of
    the rule's validity stays.
   */
  lemma FillTargetSpec(r: Rule, name: Option<string>)
    requires !r.TextRule?
    ensures var t := Apply(r, FillTarget(name));
            && (name.Some? && name.value != "" ==> t.target.text == name.value)
            && (name.None? || name.value == "" ==> t.target.text == "Could not find target")
            && !t.target.isRegex
            && Faults(t) == Faults(r) - {BadTarget}
  {
  }

  /** Making the same edit twice is making it once, except the yes/no button, which undoes itself. */
  lemma {:induction false} ApplyTwice(r: Rule, e: Edit)
    ensures !e.SwapYesNo? ==> Apply(Apply(r, e), e) == Apply(r, e)
    ensures e.SwapYesNo? ==> Apply(Apply(r, e), e) == r
  {
    match e
    case SwapYesNo =>
      if r.TextRule? {
        assert Apply(r, e) == FlipYes(r);
      }
    case _ =>
  }

  /** A zone pattern is ignored entirely while the zone restriction is off. */
  lemma {:induction false} UnrestrictedZoneIgnored(r: Rule, z: Pattern)
    requires r.TextRule? && !r.zoneRestricted
    ensures Faults(r.(zone := z)) == Faults(r)
    ensures BadZone !in Faults(r)
  {
    var r' := r.(zone := z);
    assert BadText in Faults(r') <==> BadText in Faults(r);
    assert BadZone !in Faults(r') && BadZone !in Faults(r);
    assert BadTarget !in Faults(r') && BadTarget !in Faults(r);
  }

  /** A list target pattern is ignored entirely while the target restriction is off. */
  lemma {:induction false} UnrestrictedTargetIgnored(r: Rule, t: Pattern)
    requires r.ListRule? && !r.targetRestricted
    ensures Faults(r.(target := t)) == Faults(r)
    ensures BadTarget !in Faults(r)
  {
    var r' := r.(target := t);
    assert BadText in Faults(r') <==> BadText in Faults(r);
    assert BadZone !in Faults(r') && BadZone !in Faults(r);
    assert BadTarget !in Faults(r') && BadTarget !in Faults(r);
  }
}
