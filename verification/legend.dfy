/** The map legend: the character that stands for each inhabitant and each
    item when a Room is drawn. An empty slot is drawn as a space. */
module Legend {
  import opened Errors
  import opened RoomProperties

  function InhabitantGlyph(i: Inhabitant): char {
    match i
    case Nobody => ' '
    case LiveMinotaur => 'M'
    case DeadMinotaur => 'm'
    case IntactMirror => 'O'
    case CrackedMirror => '0'
  }

  function ItemGlyph(i: Item): char {
    match i
    case NoItem => ' '
    case Bullet => '\U{2022}'
    case Treasure => 'T'
  }

  /** The characters drawn for a Room: its inhabitant, then its item. */
  function RoomGlyphs(i: Inhabitant, t: Item): (s: string)
    ensures |s| == 2
    ensures s[0] == ' ' <==> i == Nobody
    ensures s[1] == ' ' <==> t == NoItem
  {
    [InhabitantGlyph(i), ItemGlyph(t)]
  }

  /** Reading the legend backwards: the inhabitant a character stands for. */
  function InhabitantOfGlyph(ch: char): (r: Option<Inhabitant>)
    ensures r.Some? ==> InhabitantGlyph(r.value) == ch
  {
    match ch
    case ' ' => Some(Nobody)
    case 'M' => Some(LiveMinotaur)
    case 'm' => Some(DeadMinotaur)
    case 'O' => Some(IntactMirror)
    case '0' => Some(CrackedMirror)
    case _ => None
  }

  /** Reading the legend backwards: the item a character stands for. */
  function ItemOfGlyph(ch: char): (r: Option<Item>)
    ensures r.Some? ==> ItemGlyph(r.value) == ch
  {
    match ch
    case ' ' => Some(NoItem)
    case '\U{2022}' => Some(Bullet)
    case 'T' => Some(Treasure)
    case _ => None
  }

  /** Recovers a Room's contents from the characters drawn for it. */
  function ParseRoomGlyphs(s: string): (r: Option<(Inhabitant, Item)>)
    ensures r.Some? ==> RoomGlyphs(r.value.0, r.value.1) == s
  {
    if |s| != 2 then None
    else match (InhabitantOfGlyph(s[0]), ItemOfGlyph(s[1]))
      case (Some(i), Some(t)) => Some((i, t))
      case _ => None
  }

  /** The legend is unambiguous: the drawn characters give back exactly the
      inhabitant and item they were drawn from. */
  lemma LegendRoundTrip(i: Inhabitant, t: Item)
    ensures ParseRoomGlyphs(RoomGlyphs(i, t)) == Some((i, t))
  {
    match i
    case Nobody =>
    case LiveMinotaur =>
    case DeadMinotaur =>
    case IntactMirror =>
    case CrackedMirror =>
  }

  /** Different Room contents are always drawn differently. */
  lemma RoomGlyphsInjective(i1: Inhabitant, t1: Item, i2: Inhabitant, t2: Item)
    requires RoomGlyphs(i1, t1) == RoomGlyphs(i2, t2)
    ensures i1 == i2 && t1 == t2
  {
    LegendRoundTrip(i1, t1);
    LegendRoundTrip(i2, t2);
  }
}
