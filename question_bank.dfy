/**
 * The static question bank of lib/questions.ts (`SAMPLE_QUESTIONS`) and the
 * data invariants the solo game loop relies on.
 */
module QuestionBank {

  datatype Category = Cartoons | Bollywood | Hollywood | Gadgets | Snacks | Toys

  datatype Difficulty = Easy | Medium | Hard

  /** A bank entry: a `Question` without its `id` and `created_at`. */
  datatype Question = Question(category: Category, text: string, options: seq<string>, correctAnswer: int, difficulty: Difficulty)

  const SampleQuestions: seq<Question> := [
    // Cartoons
    Question(Cartoons, "Which cartoon character had a catchphrase \"Cowabunga!\"?",
      ["Teenage Mutant Ninja Turtles", "SpongeBob SquarePants", "Tom and Jerry", "The Simpsons"], 0, Easy),
    Question(Cartoons, "What was the name of the main character in \"Dragon Ball Z\"?",
      ["Vegeta", "Goku", "Piccolo", "Gohan"], 1, Medium),
    Question(Cartoons, "Which cartoon featured characters named \"Johnny Bravo\" and \"Dexter\"?",
      ["Cartoon Network", "Nickelodeon", "Disney Channel", "Fox Kids"], 0, Medium),
    Question(Cartoons, "What was the name of the pink cat in \"Tom and Jerry\"?",
      ["Butch", "Spike", "Toodles", "Tuffy"], 3, Hard),
    Question(Cartoons, "Which show featured a character named \"Ash Ketchum\"?",
      ["Digimon", "Pokemon", "Yu-Gi-Oh!", "Beyblade"], 1, Easy),
    // Bollywood
    Question(Bollywood, "Which actor starred in \"Dilwale Dulhania Le Jayenge\" (1995)?",
      ["Aamir Khan", "Shah Rukh Khan", "Salman Khan", "Akshay Kumar"], 1, Easy),
    Question(Bollywood, "What was the famous dialogue \"Mogambo khush hua\" from?",
      ["Mr. India", "Sholay", "Don", "Deewar"], 0, Medium),
    Question(Bollywood, "Which movie featured the song \"Chaiyya Chaiyya\"?",
      ["Dil Se", "Kuch Kuch Hota Hai", "Kabhi Khushi Kabhie Gham", "Dilwale Dulhania Le Jayenge"], 0, Medium),
    // Hollywood
    Question(Hollywood, "Which movie featured the quote \"I'll be back\"?",
      ["Predator", "The Terminator", "Total Recall", "Commando"], 1, Easy),
    Question(Hollywood, "What was the name of the main character in \"The Matrix\" (1999)?",
      ["Morpheus", "Neo", "Trinity", "Agent Smith"], 1, Easy),
    Question(Hollywood, "Which movie featured the song \"My Heart Will Go On\"?",
      ["Titanic", "Avatar", "The Notebook", "Pearl Harbor"], 0, Easy),
    // Gadgets
    Question(Gadgets, "What was the storage capacity of a standard floppy disk?",
      ["1.44 MB", "2.88 MB", "720 KB", "360 KB"], 0, Medium),
    Question(Gadgets, "Which company made the Walkman?",
      ["Panasonic", "Sony", "Philips", "Samsung"], 1, Easy),
    Question(Gadgets, "What was the first portable music player called?",
      ["iPod", "Walkman", "Discman", "MP3 Player"], 1, Medium),
    Question(Gadgets, "Which gaming console was released in 1994?",
      ["Nintendo 64", "PlayStation", "Sega Saturn", "Game Boy Color"], 1, Medium),
    // Snacks
    Question(Snacks, "What was Pepsi Blue?",
      ["A blue-colored Pepsi", "A limited edition flavor", "A marketing campaign", "A different brand"], 0, Hard),
    Question(Snacks, "Which snack was famous for its \"Phantom\" cigarettes?",
      ["Candy cigarettes", "Chocolate cigarettes", "Gum cigarettes", "All of the above"], 3, Medium),
    Question(Snacks, "What was the popular bubble gum brand in the 90s?",
      ["Hubba Bubba", "Bubble Yum", "Bazooka", "All of the above"], 3, Easy),
    // Toys
    Question(Toys, "What were Tazos?",
      ["Collectible discs", "Action figures", "Stickers", "Cards"], 0, Medium),
    Question(Toys, "Which spinning top toy was popular in the 2000s?",
      ["Beyblade", "Top Trumps", "Yo-yo", "Fidget Spinner"], 0, Easy),
    Question(Toys, "What was the name of the collectible card game from the 90s?",
      ["Pokemon Cards", "Yu-Gi-Oh! Cards", "Magic: The Gathering", "All of the above"], 3, Easy)
  ]

  /** Four options and a correct answer that indexes one of them. */
  predicate WellFormed(q: Question)
  {
    |q.options| == 4 && 0 <= q.correctAnswer < |q.options|
  }

  /** The bank holds 21 questions. */
  lemma BankSize()
    ensures |SampleQuestions| == 21
  {
  }

  /** Every question has exactly four options and a valid correct index. */
  lemma {:induction false} BankWellFormed()
    ensures forall q :: q in SampleQuestions ==> WellFormed(q)
  {
    forall i | 0 <= i < |SampleQuestions| ensures WellFormed(SampleQuestions[i]) {
    }
  }

  /** A question of the bank at which every category is found. */
  function Witness(c: Category): (i: nat)
    ensures i < |SampleQuestions| && SampleQuestions[i].category == c
  {
    match c
    case Cartoons => 0
    case Bollywood => 5
    case Hollywood => 8
    case Gadgets => 11
    case Snacks => 15
    case Toys => 18
  }

  /** Every category appears in at least one question. */
  lemma {:induction false} EveryCategoryPresent(c: Category)
    ensures exists q :: q in SampleQuestions && q.category == c
  {
    var i := Witness(c);
    assert SampleQuestions[i] in SampleQuestions;
  }
}
