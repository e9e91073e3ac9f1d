/**
  The client's table `FLAMES_DETAILS` (client/src/lib/flames.ts, lines 57-106): for each
  letter of FLAMES, the relationship it stands for, a description and the presentation
  keys (icon, colour, animation, 3D object) the result screen uses.
*/
module Details {
  import opened Wrappers
  import Reducer

  datatype Detail = Detail(
    relationship: string,
    description: string,
    icon: string,
    color: string,
    animation: string,
    object3d: string)

  const FLAMES_DETAILS: map<string, Detail> := map[
    "F" := Detail("Friends",
                  "You two have a solid foundation for a great friendship. Enjoy the casual bond you share!",
                  "fa-user-friends", "friends", "float", "handshake"),
    "L" := Detail("Love",
                  "There's a strong romantic connection between you two. The stars align in your favor!",
                  "fa-heart", "love", "heartbeat", "hearts"),
    "A" := Detail("Affection",
                  "There's a warm affectionate bond between you. You care deeply for each other.",
                  "fa-hand-holding-heart", "affection", "float", "flower"),
    "M" := Detail("Marriage",
                  "Your compatibility suggests a long-term commitment. You could be great life partners!",
                  "fa-ring", "marriage", "heartbeat", "rings"),
    "E" := Detail("Crush",
                  "You might have a secret crush on each other! There's definitely some chemistry here.",
                  "fa-bolt", "crush", "pulse", "stars"),
    "S" := Detail("Besties",
                  "You're the ultimate besties! Your connection is unmatched and your friendship is goals!",
                  "fa-people-hold-hands", "besties", "bounce", "highfive")
  ]

  /** `FLAMES_DETAILS[letter]`: defined exactly for the six letters of FLAMES. */
  function DetailFor(letter: string): (r: Option<Detail>)
    ensures r.Some? <==> letter in Reducer.FLAMES
    ensures r.Some? ==> r.value.relationship != [] && r.value.description != []
  {
    if letter in FLAMES_DETAILS then Some(FLAMES_DETAILS[letter]) else None
  }

  /** The six letters name six different relationships. */
  lemma RelationshipsDistinct(l1: string, l2: string)
    requires l1 in Reducer.FLAMES && l2 in Reducer.FLAMES && l1 != l2
    ensures DetailFor(l1).value.relationship != DetailFor(l2).value.relationship
  {
  }

  /** Whatever two names are entered, the result screen finds details for their letter. */
  lemma ResultHasDetails(name1: string, name2: string)
    ensures DetailFor(Reducer.FlamesResult(name1, name2)).Some?
  {
  }
}
