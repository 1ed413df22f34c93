/**
 * The name builders of the two rename dialogs: the object dialog (a letter
 * A..Z or "0" followed by primes) and the element dialog (a Greek letter
 * followed by primes).
 */
module RenameDialogs {
  import opened Text

  const Prime: char := '\''

  /** The number of primes in a name: `name.count("'")`. */
  function Primes(name: string): nat
  {
    multiset(name)[Prime]
  }

  /**
   * `str.isalpha` for the characters these dialogs produce: ASCII letters,
   * the Latin-1 letters and the Greek letters.
   */
  predicate IsAlpha(c: char)
  {
    ('A' <= c <= 'Z') || ('a' <= c <= 'z')
    || c == '\U{AA}' || c == '\U{B5}' || c == '\U{BA}'
    || ('\U{C0}' <= c <= '\U{FF}' && c != '\U{D7}' && c != '\U{F7}')
    || ('\U{391}' <= c <= '\U{3A9}' && c != '\U{3A2}') || ('\U{3B1}' <= c <= '\U{3C9}')
  }

  /** The prime button is enabled: some character is a letter or the digit zero. */
  predicate HasPrimeableSymbol(name: string)
  {
    exists k :: 0 <= k < |name| && (IsAlpha(name[k]) || name[k] == '0')
  }

  /** `set_letter`: the chosen letter followed by as many primes as the old name had. */
  function WithLetter(name: string, letter: string): (r: string)
    ensures StartsWith(r, letter)
    ensures forall k :: |letter| <= k < |r| ==> r[k] == Prime
    ensures Primes(r) == Primes(letter) + Primes(name)
  {
    var primes := Repeat(Prime, Primes(name));
    RepeatCount(Prime, Primes(name));
    assert (letter + primes)[..|letter|] == letter;
    letter + primes
  }

  /** `backspace`: the name without its last character; an empty name stays empty. */
  function DropLast(name: string): (r: string)
    ensures name == "" ==> r == ""
    ensures name != "" ==> name == r + [name[|name| - 1]]
  {
    if name == "" then name else name[..|name| - 1]
  }

  /** Choosing a second letter replaces the first and keeps the primes. */
  lemma LetterReplacesLetter(name: string, first: string, second: string)
    requires Prime !in first
    ensures WithLetter(WithLetter(name, first), second) == WithLetter(name, second)
  {
    assert Primes(first) == 0;
  }

  /** Backspace undoes adding a prime. */
  lemma BackspaceUndoesPrime(name: string)
    ensures DropLast(name + [Prime]) == name
  {
  }

  /** After choosing a letter or "0" the prime button is enabled. */
  lemma LetterEnablesPrime(name: string, letter: char)
    requires IsAlpha(letter) || letter == '0'
    ensures HasPrimeableSymbol(WithLetter(name, [letter]))
  {
    assert WithLetter(name, [letter])[0] == letter;
  }

  /** A name made of primes only never enables the prime button. */
  lemma PrimesAloneDisablePrime(n: nat)
    ensures !HasPrimeableSymbol(Repeat(Prime, n))
  {
  }

  /** The object rename dialog and its button states. */
  class ObjectRenameDialog {
    var currentName: string
    var displayText: string
    var clearEnabled: bool
    var backspaceEnabled: bool
    var primeEnabled: bool

    /** The shown text and the enabled buttons agree with the name (`update_display`). */
    predicate Valid()
      reads this
    {
      displayText == (if currentName == "" then "(empty)" else currentName)
      && clearEnabled == (currentName != "")
      && backspaceEnabled == (currentName != "")
      && primeEnabled == HasPrimeableSymbol(currentName)
    }

    constructor(currentName: string)
      ensures this.currentName == currentName && Valid()
    {
      this.currentName := currentName;
      new;
      UpdateDisplay();
    }

    method UpdateDisplay()
      modifies this
      ensures currentName == old(currentName) && Valid()
    {
      displayText := if currentName == "" then "(empty)" else currentName;
      clearEnabled := currentName != "";
      backspaceEnabled := currentName != "";
      primeEnabled := HasPrimeableSymbol(currentName);
    }

    method SetLetter(letter: string)
      modifies this
      ensures currentName == WithLetter(old(currentName), letter) && Valid()
    {
      currentName := WithLetter(currentName, letter);
      UpdateDisplay();
    }

    method AddPrime()
      modifies this
      ensures currentName == old(currentName) + [Prime] && Valid()
    {
      currentName := currentName + [Prime];
      UpdateDisplay();
    }

    method ClearName()
      modifies this
      ensures currentName == "" && Valid()
    {
      currentName := "";
      UpdateDisplay();
    }

    /** Drops the last character; on an empty name nothing at all changes. */
    method Backspace()
      modifies this
      ensures currentName == DropLast(old(currentName))
      ensures old(currentName) == "" ==> unchanged(this)
      ensures old(currentName) != "" ==> Valid()
    {
      if currentName != "" {
        currentName := currentName[..|currentName| - 1];
        UpdateDisplay();
      }
    }

    method GetName() returns (name: string)
      ensures name == currentName
    {
      name := currentName;
    }

    method SetName(name: string)
      modifies this
      ensures currentName == name && Valid()
    {
      currentName := name;
      UpdateDisplay();
    }
  }

  /** The element rename dialog; its name is "x" until a letter is chosen. */
  class ElementRenameDialog {
    var currentName: string
    var displayText: string

    predicate Valid()
      reads this
    {
      displayText == currentName
    }

    constructor(currentName: string)
      ensures this.currentName == currentName && Valid()
    {
      this.currentName := currentName;
      displayText := currentName;
    }

    /** Replaces the whole name, primes included. */
    method SetBaseLetter(letter: string)
      modifies this
      ensures currentName == letter && Valid()
    {
      currentName := letter;
      displayText := currentName;
    }

    method AddPrime()
      modifies this
      ensures currentName == old(currentName) + [Prime] && Valid()
      ensures Primes(currentName) == Primes(old(currentName)) + 1
    {
      currentName := currentName + [Prime];
      displayText := currentName;
    }

    /** Resets to the default "x", so the name is never left empty. */
    method ClearName()
      modifies this
      ensures currentName == "x" && currentName != "" && Valid()
    {
      currentName := "x";
      displayText := currentName;
    }

    method GetElementName() returns (name: string)
      ensures name == currentName
    {
      name := currentName;
    }
  }

  /** The element dialog as opened by the proof steps: with its default name. */
  method NewElementRenameDialog() returns (dialog: ElementRenameDialog)
    ensures fresh(dialog) && dialog.currentName == "x" && dialog.Valid()
  {
    dialog := new ElementRenameDialog("x");
  }
}
