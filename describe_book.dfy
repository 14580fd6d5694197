/** `src/blt/describe_book.py`: the placeholder listing record made from a
    book's folder name. The price, computed with floats from the settings,
    enters the description only as already formatted text. */
module DescribeBook {
  import opened Wrappers
  import opened Text

  /** `s.replace(a, b)` for one character by one character. */
  function ReplaceChar(s: string, a: char, b: char): (r: string)
    ensures |r| == |s|
  {
    seq(|s|, i requires 0 <= i < |s| => if s[i] == a then b else s[i])
  }

  /** `str.title()` on the rest of a string, `prevCased` telling whether
      the character before it is a letter. */
  function TitleFrom(s: string, prevCased: bool): (r: string)
    ensures |r| == |s|
  {
    if s == [] then []
    else [if prevCased then ToLowerChar(s[0]) else ToUpperChar(s[0])] + TitleFrom(s[1..], IsLetter(s[0]))
  }

  /** `str.title()`. */
  function Title(s: string): string
  {
    TitleFrom(s, false)
  }

  lemma {:induction false} TitleFromAt(s: string, prevCased: bool, i: nat)
    requires i < |s|
    ensures TitleFrom(s, prevCased)[i] ==
      if (i == 0 && !prevCased) || (i > 0 && !IsLetter(s[i - 1])) then ToUpperChar(s[i]) else ToLowerChar(s[i])
  {
    if i > 0 {
      TitleFromAt(s[1..], IsLetter(s[0]), i - 1);
      if i > 1 {
        assert s[1..][i - 2] == s[i - 1];
      }
    }
  }

  /** The title-casing rule: a letter at the start or after a non-letter
      becomes upper case, a letter after a letter lower case, and every
      other character is kept. */
  lemma TitleRule(s: string, i: nat)
    requires i < |s|
    ensures Title(s)[i] == if i == 0 || !IsLetter(s[i - 1]) then ToUpperChar(s[i]) else ToLowerChar(s[i])
  {
    TitleFromAt(s, false, i);
  }

  /** Title-casing a title changes nothing. */
  lemma TitleIdempotent(s: string)
    ensures Title(Title(s)) == Title(s)
  {
    var t := Title(s);
    forall i | 0 <= i < |s| ensures Title(t)[i] == t[i] {
      TitleRule(s, i);
      TitleRule(t, i);
      if i > 0 {
        TitleRule(s, i - 1);
      }
    }
  }

  /** `folder.name.replace("_", " ").title()`. */
  function BookTitle(name: string): string
  {
    Title(ReplaceChar(name, '_', ' '))
  }

  /** Position by position, the title is the name with each `_` turned
      into a space and each letter cased by the letter before it; it has the
      name's length and no `_`. */
  lemma BookTitleAt(name: string, i: nat)
    requires i < |name|
    ensures |BookTitle(name)| == |name|
    ensures BookTitle(name)[i] ==
      if name[i] == '_' then ' '
      else if i == 0 || !IsLetter(name[i - 1]) then ToUpperChar(name[i])
      else ToLowerChar(name[i])
    ensures BookTitle(name)[i] != '_'
  {
    TitleRule(ReplaceChar(name, '_', ' '), i);
  }

  lemma BookTitleNoUnderscore(name: string)
    ensures '_' !in BookTitle(name)
  {
    forall i | 0 <= i < |name| ensures BookTitle(name)[i] != '_' {
      BookTitleAt(name, i);
    }
  }

  /** A folder made by the grouping step gets its number as the title. */
  lemma BookTitleExample(name: string)
    requires name == "book_001"
    ensures BookTitle(name) == "Book 001"
  {
    var t := BookTitle(name);
    forall i | 0 <= i < |name| ensures t[i] == "Book 001"[i] {
      BookTitleAt(name, i);
    }
  }

  /** The dictionary `describe_book_from_folder` returns, without its
      `price` entry. */
  datatype BookDescription = BookDescription(
    title: string,
    author: Option<string>,
    isbn: Option<string>,
    genre: Option<string>,
    description: string)

  /** The Portuguese description; `priceText` is `f"{price:.0f}"`, and
      `location` and `shipping` are the Vinted settings. */
  function DescriptionText(title: string, priceText: string, location: string, shipping: string): string
  {
    "TÍTULO: " + title + "\n" +
    ("Preço: " + priceText + "€\n\n" +
     "Livro em bom estado.\n" +
     "Entrega em mão na " + location + ", senão " + shipping + ".\n" +
     "Tenho outros livros à venda; ao comprar mais, paga apenas uma vez o transporte.")
  }

  /** `describe_book_from_folder(folder)` for a folder called `name`: the
      title has the name's length, and no author, ISBN or genre is known. */
  function DescribeBookFromFolder(name: string, priceText: string, location: string, shipping: string): (r: BookDescription)
    ensures |r.title| == |name|
    ensures r.author == None && r.isbn == None && r.genre == None
  {
    var title := BookTitle(name);
    BookDescription(title, None, None, None, DescriptionText(title, priceText, location, shipping))
  }

  /** The record's title is the folder's title, the author, ISBN and genre
      are unknown, and the description opens with the title line. */
  lemma DescribeShape(name: string, priceText: string, location: string, shipping: string)
    ensures var d := DescribeBookFromFolder(name, priceText, location, shipping);
      d.title == BookTitle(name) && '_' !in d.title &&
      d.author == None && d.isbn == None && d.genre == None &&
      "TÍTULO: " + d.title + "\n" <= d.description
  {
    BookTitleNoUnderscore(name);
  }
}
