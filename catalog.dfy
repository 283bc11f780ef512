/**
 The static part of the satisfaction survey: the ordered question catalog and the
 five rating glyphs a rated question can be answered with. Nothing here changes
 at run time.
 */
module Catalog {

  /** A question is either answered by free text or by picking a rating glyph. */
  datatype Kind = Text | Emoji

  datatype Question = Question(kind: Kind, prompt: string)

  /** The catalog, in the order the wizard presents it. */
  const Questions: seq<Question> := [
    Question(Text, "O que você mais gostou em nosso atendimento?"),
    Question(Emoji, "Como você avalia o tempo de espera?"),
    Question(Emoji, "Como você avalia a cordialidade da nossa equipe?"),
    Question(Emoji, "Você recomendaria o Hospital Dom da Vida para amigos/familiares?"),
    Question(Emoji, "Como você avalia a limpeza e organização do hospital?"),
    Question(Emoji, "Como você avalia a clareza das informações recebidas?"),
    Question(Emoji, "Como você avalia a disponibilidade de atendimento?")
  ]

  /** The number of questions, `questions.length`. */
  const N: nat := |Questions|

  /** The rating glyphs, from worst to best: pouting, confused, neutral, slightly
      smiling and star-struck faces. */
  const Answers: seq<string> := ["\U{1F621}", "\U{1F615}", "\U{1F610}", "\U{1F642}", "\U{1F929}"]

  /** The kind of question `i`; only question 0 asks for free text. */
  function KindOf(i: nat): (k: Kind)
    requires i < N
    ensures k == Text <==> i == 0
  {
    Questions[i].kind
  }
}
