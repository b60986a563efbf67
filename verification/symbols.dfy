/** Grammar symbols: nonterminals, which compare by identity and are
    therefore modelled by an id, and terminals, which are arbitrary token
    objects compared by value, plus the classes of those objects that the
    parser and the priority store fall back on. */
module Symbols {

  /** A nonterminal; `id` stands for the object's identity, `name` is only
      displayed. */
  datatype Nonterminal = Nonterminal(id: nat, name: string)

  /** A terminal: the end-of-input marker, a token object (its text and the
      name of its class), or a class object used as a key that matches every
      token of that class. */
  datatype Terminal = Eof | Lit(text: string, cls: string) | Class(name: string)

  /** Class names of the built-in objects that can be asked for their class. */
  const EofClassName: string := "com.silverdirk.parser.TokenSource$1"
  const RuleClassName: string := "com.silverdirk.parser.ParseRule"
  const ClassClassName: string := "java.lang.Class"

  /** A grammar symbol. */
  datatype Symbol = N(nt: Nonterminal) | T(t: Terminal)

  /** The class object of a terminal (`getClass()`). */
  function ClassOf(t: Terminal): (c: Terminal)
    ensures c.Class?
    ensures t.Lit? ==> c.name == t.cls
    ensures t.Eof? ==> c.name == EofClassName
    ensures t.Class? ==> c.name == ClassClassName
  {
    match t
    case Eof => Class(EofClassName)
    case Lit(_, cls) => Class(cls)
    case Class(_) => Class(ClassClassName)
  }

  /** The display form of a nonterminal: its name in angle brackets. */
  function NontermString(n: Nonterminal): (s: string)
    ensures |s| == |n.name| + 2 && s[0] == '<' && s[|s| - 1] == '>'
    ensures s[1..|s| - 1] == n.name
  {
    "<" + n.name + ">"
  }

  /** The display form of a terminal object. */
  function TerminalString(t: Terminal): (s: string)
    ensures t.Eof? ==> s == "/eof/"
    ensures t.Lit? ==> s == t.text
    ensures t.Class? ==> s == "class " + t.name
  {
    match t
    case Eof => "/eof/"
    case Lit(text, _) => text
    case Class(name) => "class " + name
  }
}
