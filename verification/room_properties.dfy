/** What a Room may hold: at most one inhabitant and at most one item. */
module RoomProperties {

  datatype Inhabitant =
    | Nobody
    | LiveMinotaur
    | DeadMinotaur
    | IntactMirror
    | CrackedMirror

  datatype Item =
    | NoItem
    | Bullet
    | Treasure
}
