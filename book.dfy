/**
 * A catalog item. The identifier is fixed at construction; title, author,
 * genre and the availability flag are overwritten in place by setters.
 */
module Books {

  /** What the getters of one book report at one moment. */
  datatype BookState = BookState(bookID: string, title: string, author: string, genre: string, available: bool)

  /** A book's attributes without its identifier, as a record source supplies them. */
  datatype BookDetails = BookDetails(title: string, author: string, genre: string, available: bool)

  function Details(b: BookState): BookDetails {
    BookDetails(b.title, b.author, b.genre, b.available)
  }

  class Book {
    /** There is no setter for the identifier. */
    const bookID: string
    var title: string
    var author: string
    var genre: string
    var available: bool

    function State(): BookState
      reads this
    {
      BookState(bookID, title, author, genre, available)
    }

    constructor (bookID: string, title: string, author: string, genre: string, available: bool)
      ensures State() == BookState(bookID, title, author, genre, available)
    {
      this.bookID := bookID;
      this.title := title;
      this.author := author;
      this.genre := genre;
      this.available := available;
    }

    method SetTitle(title: string)
      modifies this`title
      ensures State() == old(State()).(title := title)
    {
      this.title := title;
    }

    method SetAuthor(author: string)
      modifies this`author
      ensures State() == old(State()).(author := author)
    {
      this.author := author;
    }

    method SetGenre(genre: string)
      modifies this`genre
      ensures State() == old(State()).(genre := genre)
    {
      this.genre := genre;
    }

    method SetAvailable(available: bool)
      modifies this`available
      ensures State() == old(State()).(available := available)
    {
      this.available := available;
    }
  }
}
