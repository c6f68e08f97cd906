/**
 * The `Broadcast` record the manager creates and updates in place, and the
 * two properties of the host's player object the core reads.
 */
module Entity {
  import opened NetTypes

  /** A connected player, as far as the core is concerned: its user id and whether it is a bot (NPC). */
  class Player {
    const userId: string
    const isNpc: bool

    constructor (userId: string, isNpc: bool)
      ensures this.userId == userId && this.isNpc == isNpc
    {
      this.userId := userId;
      this.isNpc := isNpc;
    }
  }

  /**
   * One broadcast. `id` and `duration` are fixed at construction (getter-only
   * in C#); `text`, `priority` and `tag` have setters that the manager uses.
   * `player` has a setter too, but nothing in the core assigns it, so it is
   * fixed here as well.
   */
  class Broadcast {
    const player: Player
    var text: string
    const id: Int32
    const duration: Int32
    var priority: Byte
    var tag: string

    /** Stores each argument in the field of the same name; `priority` defaults to 0 and `tag` to the empty string. */
    constructor (player: Player, text: string, id: Int32, duration: Int32, priority: Byte := 0, tag: string := "")
      ensures this.player == player && this.text == text
      ensures this.id == id && this.duration == duration
      ensures this.priority == priority && this.tag == tag
    {
      this.player := player;
      this.text := text;
      this.id := id;
      this.priority := priority;
      this.duration := duration;
      this.tag := tag;
    }
  }
}
