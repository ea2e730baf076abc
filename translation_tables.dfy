/** The declarations of the `translations` object literal of
    `translateExplanation` (src/utils/translationUtils.ts lines 6-106), in
    source order. */
module TranslationTables {

  /** A word character of a regular expression without the `u` flag: what
      `\b` looks for. */
  predicate IsWordChar(c: char)
  {
    'a' <= c <= 'z' || 'A' <= c <= 'Z' || '0' <= c <= '9' || c == '_'
  }

  /** A non-empty word of lower-case ASCII letters, as every key of the
      literal is. */
  predicate IsWordKey(k: string)
  {
    |k| > 0 && forall i | 0 <= i < |k| :: 'a' <= k[i] <= 'z'
  }

  /** One property of the `translations` object literal. */
  datatype Entry = Entry(key: string, value: string)

  predicate AllWordKeys(es: seq<Entry>)
  {
    forall i | 0 <= i < |es| :: IsWordKey(es[i].key)
  }

  /** Declared on lines 9-18. */
  const Block1: seq<Entry> := [
    Entry("force", "humna"),
    Entry("energy", "anniisaa"),
    Entry("power", "aangoo"),
    Entry("speed", "saffisa"),
    Entry("velocity", "saffisa kallattii"),
    Entry("acceleration", "saffisummaa"),
    Entry("mass", "uumama"),
    Entry("weight", "ulfaatina"),
    Entry("distance", "fageenya"),
    Entry("time", "yeroo")
  ]

  /** Declared on lines 19-28. */
  const Block2: seq<Entry> := [
    Entry("temperature", "ho'a"),
    Entry("pressure", "dhiibbaa"),
    Entry("volume", "bal'ina"),
    Entry("density", "yaabuudhaa"),
    Entry("gravity", "harkisaa lafaa"),
    Entry("friction", "wal-hantuutuu"),
    Entry("momentum", "jijjiirannoo"),
    Entry("electric", "elektirikii"),
    Entry("magnetic", "maagneetii"),
    Entry("current", "yaa'aa")
  ]

  /** Declared on lines 29-38. */
  const Block3: seq<Entry> := [
    Entry("voltage", "voltaajii"),
    Entry("resistance", "mormii"),
    Entry("circuit", "marsaa"),
    Entry("atom", "atoomii"),
    Entry("molecule", "moolekyuulii"),
    Entry("element", "miseensa"),
    Entry("compound", "makaa"),
    Entry("reaction", "jijjiirama"),
    Entry("solution", "furmaata"),
    Entry("acid", "asiidii")
  ]

  /** Declared on lines 39-48. */
  const Block4: seq<Entry> := [
    Entry("base", "bu'uura"),
    Entry("cell", "seelii"),
    Entry("tissue", "tissuun"),
    Entry("organ", "qaamolee"),
    Entry("system", "sirna"),
    Entry("function", "hojii"),
    Entry("structure", "caasaa"),
    Entry("process", "adeemsa"),
    Entry("method", "mala"),
    Entry("result", "bu'aa")
  ]

  /** Declared on lines 49-58. */
  const Block5: seq<Entry> := [
    Entry("equation", "walqixxummaa"),
    Entry("formula", "foormulaa"),
    Entry("calculation", "herregaa"),
    Entry("measurement", "safaruu"),
    Entry("unit", "safartuun"),
    Entry("constant", "dhaabbataa"),
    Entry("variable", "jijjiiramaa"),
    Entry("graph", "taattoo"),
    Entry("table", "gabatee"),
    Entry("data", "daataa")
  ]

  /** Declared on lines 59-68. */
  const Block6: seq<Entry> := [
    Entry("information", "odeeffannoo"),
    Entry("database", "kuusdeetaa"),
    Entry("computer", "kompiitarii"),
    Entry("program", "sagantaa"),
    Entry("software", "sooftiweerii"),
    Entry("hardware", "haardiweerii"),
    Entry("network", "networkii"),
    Entry("internet", "intarneetii"),
    Entry("website", "marsariitii"),
    Entry("democracy", "dimokiraasii")
  ]

  /** Declared on lines 69-78. Written as two halves of five because the
      proof that its keys are lower-case words is too costly for the solver
      over all ten entries at once. */
  const Block7: seq<Entry> := Block7Head + Block7Tail

  /** Declared on lines 69-73. */
  const Block7Head: seq<Entry> := [
    Entry("government", "mootummaa"),
    Entry("constitution", "seera hundeeffamaa"),
    Entry("rights", "mirga"),
    Entry("justice", "haqaa"),
    Entry("equality", "walqixxummaa")
  ]

  /** Declared on lines 74-78. */
  const Block7Tail: seq<Entry> := [
    Entry("freedom", "bilisummaa"),
    Entry("citizenship", "lammummaa"),
    Entry("law", "seera"),
    Entry("court", "mana murtii"),
    Entry("parliament", "paarlamaa")
  ]

  /** Declared on lines 79-88. */
  const Block8: seq<Entry> := [
    Entry("election", "filannoo"),
    Entry("vote", "sagalee"),
    Entry("policy", "imaammata"),
    Entry("society", "hawaasa"),
    Entry("community", "hawaasummaa"),
    Entry("culture", "aadaa"),
    Entry("tradition", "duudhaa"),
    Entry("history", "seenaa"),
    Entry("ancient", "durii"),
    Entry("modern", "ammayyaa")
  ]

  /** Declared on lines 89-98. */
  const Block9: seq<Entry> := [
    Entry("period", "yeroo"),
    Entry("century", "jaarraa"),
    Entry("year", "waggaa"),
    Entry("month", "ji'a"),
    Entry("day", "guyyaa"),
    Entry("king", "mootii"),
    Entry("emperor", "nigusii"),
    Entry("kingdom", "mootummaa"),
    Entry("empire", "empaayerii"),
    Entry("war", "waraana")
  ]

  /** Declared on lines 99-105. */
  const Block10: seq<Entry> := [
    Entry("peace", "nagaa"),
    Entry("independence", "walabummaa"),
    Entry("colonial", "koloneeffamuu"),
    Entry("resistance", "falmii"),
    Entry("battle", "lolaa"),
    Entry("victory", "mo'annaa"),
    Entry("defeat", "moofamuu")
  ]

  /** All declarations of the literal, in source order (97 of them). */
  const Declarations: seq<Entry> :=
    Block1 + Block2 + Block3 + Block4 + Block5 + Block6 + Block7 + Block8 + Block9 + Block10

  lemma Block1Keys()
    ensures AllWordKeys(Block1)
  {
  }

  lemma Block2Keys()
    ensures AllWordKeys(Block2)
  {
  }

  lemma Block3Keys()
    ensures AllWordKeys(Block3)
  {
  }

  lemma Block4Keys()
    ensures AllWordKeys(Block4)
  {
  }

  lemma Block5Keys()
    ensures AllWordKeys(Block5)
  {
  }

  lemma Block6Keys()
    ensures AllWordKeys(Block6)
  {
  }

  lemma Block7HeadKeys()
    ensures AllWordKeys(Block7Head)
  {
  }

  lemma Block7TailKeys()
    ensures AllWordKeys(Block7Tail)
  {
  }

  lemma Block7Keys()
    ensures AllWordKeys(Block7)
  {
    Block7HeadKeys();
    Block7TailKeys();
    ConcatWordKeys(Block7Head, Block7Tail);
  }

  lemma Block8Keys()
    ensures AllWordKeys(Block8)
  {
  }

  lemma Block9Keys()
    ensures AllWordKeys(Block9)
  {
  }

  lemma Block10Keys()
    ensures AllWordKeys(Block10)
  {
  }

  lemma ConcatWordKeys(a: seq<Entry>, b: seq<Entry>)
    requires AllWordKeys(a) && AllWordKeys(b)
    ensures AllWordKeys(a + b)
  {
    forall i | 0 <= i < |a + b| ensures IsWordKey((a + b)[i].key) {
      if i >= |a| {
        assert (a + b)[i] == b[i - |a|];
      }
    }
  }

  /** Every key of the literal is a lower-case word. */
  lemma DeclarationKeys()
    ensures AllWordKeys(Declarations)
  {
    Block1Keys();
    Block2Keys();
    Block3Keys();
    Block4Keys();
    Block5Keys();
    Block6Keys();
    Block7Keys();
    Block8Keys();
    Block9Keys();
    Block10Keys();
    ConcatWordKeys(Block1, Block2);
    ConcatWordKeys(Block1 + Block2, Block3);
    ConcatWordKeys(Block1 + Block2 + Block3, Block4);
    ConcatWordKeys(Block1 + Block2 + Block3 + Block4, Block5);
    ConcatWordKeys(Block1 + Block2 + Block3 + Block4 + Block5, Block6);
    ConcatWordKeys(Block1 + Block2 + Block3 + Block4 + Block5 + Block6, Block7);
    ConcatWordKeys(Block1 + Block2 + Block3 + Block4 + Block5 + Block6 + Block7, Block8);
    ConcatWordKeys(Block1 + Block2 + Block3 + Block4 + Block5 + Block6 + Block7 + Block8, Block9);
    ConcatWordKeys(Block1 + Block2 + Block3 + Block4 + Block5 + Block6 + Block7 + Block8 + Block9, Block10);
  }
}
