/**
 * The reply rules of the college chatbot in codsoft_ai_1/chat_bot/chat_bot.py:
 * an age-banded greeting and a keyword-driven answer to a question.
 */
module ChatBot {
  import opened Wrappers

  predicate StartsWith(s: string, prefix: string) {
    |prefix| <= |s| && s[..|prefix|] == prefix
  }

  predicate EndsWith(s: string, suffix: string) {
    |suffix| <= |s| && s[|s| - |suffix|..] == suffix
  }

  // ---------------------------------------------------------------------
  // chatbot_response

  /** The opening every greeting shares. */
  function Greeting(userName: string): string {
    "Hello, " + userName + "!"
  }

  const UnderEighteen := " You're under 18. It's great to start learning early!"
  const PrimeAge := " You're in the prime age group. Keep working hard and achieving your goals!"
  const Experienced := " With more experience, you're likely making great strides in your journey!"

  /**
   * chatbot_response: greets the user by name and adds a remark chosen by
   * age band (under 18, 18 to 25, over 25). The source's `if`/`elif`
   * chain would return None if no band matched; for an integer age one
   * always does.
   */
  function ChatbotResponse(userName: string, userAge: int): (reply: Option<string>)
    ensures reply.Some?
    ensures StartsWith(reply.value, Greeting(userName))
  {
    if userAge < 18 then Some(Greeting(userName) + UnderEighteen)
    else if 18 <= userAge <= 25 then Some(Greeting(userName) + PrimeAge)
    else if userAge > 25 then Some(Greeting(userName) + Experienced)
    else None
  }

  /** A string cannot end with two suffixes that differ `k` characters from their ends. */
  lemma EndingsClash(s: string, t: string, u: string, k: int)
    requires 0 < k <= |t| && k <= |u| && t[|t| - k] != u[|u| - k]
    requires EndsWith(s, t)
    ensures !EndsWith(s, u)
  {
    SuffixChar(s, t, k);
    SuffixChar(s, u, k);
  }

  /** The `k`-th character from the end of a string is that of any suffix it ends with. */
  lemma SuffixChar(s: string, t: string, k: int)
    requires 0 < k <= |t|
    ensures EndsWith(s, t) ==> k <= |s| && s[|s| - k] == t[|t| - k]
  {
    if |t| <= |s| {
      assert s[|s| - k] == s[|s| - |t|..][|t| - k];
    }
  }

  /**
   * The bands are exclusive and exhaustive: the reply carries the remark
   * of exactly the band the age falls in.
   */
  lemma ResponseNamesBand(userName: string, userAge: int)
    ensures EndsWith(ChatbotResponse(userName, userAge).value, UnderEighteen) <==> userAge < 18
    ensures EndsWith(ChatbotResponse(userName, userAge).value, PrimeAge) <==> 18 <= userAge <= 25
    ensures EndsWith(ChatbotResponse(userName, userAge).value, Experienced) <==> userAge > 25
  {
    var reply := ChatbotResponse(userName, userAge).value;
    var g := Greeting(userName);
    assert UnderEighteen[|UnderEighteen| - 2] == 'y' && UnderEighteen[|UnderEighteen| - 3] == 'l';
    assert PrimeAge[|PrimeAge| - 2] == 's';
    assert Experienced[|Experienced| - 2] == 'y' && Experienced[|Experienced| - 3] == 'e';
    if userAge < 18 {
      assert (g + UnderEighteen)[|g + UnderEighteen| - |UnderEighteen|..] == UnderEighteen;
      EndingsClash(reply, UnderEighteen, PrimeAge, 2);
      EndingsClash(reply, UnderEighteen, Experienced, 3);
    } else if userAge <= 25 {
      assert (g + PrimeAge)[|g + PrimeAge| - |PrimeAge|..] == PrimeAge;
      EndingsClash(reply, PrimeAge, UnderEighteen, 2);
      EndingsClash(reply, PrimeAge, Experienced, 2);
    } else {
      assert (g + Experienced)[|g + Experienced| - |Experienced|..] == Experienced;
      EndingsClash(reply, Experienced, UnderEighteen, 3);
      EndingsClash(reply, Experienced, PrimeAge, 2);
    }
  }

  // ---------------------------------------------------------------------
  // college_queries

  /** str.lower on one character, for the ASCII letters. */
  function LowerChar(ch: char): char {
    if 'A' <= ch <= 'Z' then (ch as int + 32) as char else ch
  }

  /** str.lower, character by character. */
  function Lower(s: string): string {
    seq(|s|, i requires 0 <= i < |s| => LowerChar(s[i]))
  }

  /** Python's `keyword in s` for strings: `keyword` occurs in `s` as a substring. */
  predicate Contains(s: string, keyword: string) {
    exists i :: 0 <= i <= |s| - |keyword| && OccursAt(s, keyword, i)
  }

  /** `keyword` occurs in `s` starting at index `i`. */
  predicate OccursAt(s: string, keyword: string, i: int) {
    0 <= i <= |s| - |keyword| && s[i..i + |keyword|] == keyword
  }

  /** The keywords college_queries looks for, in the order it tries them, and its answers. */
  const Keywords: seq<string> := ["admission", "course", "fees", "campus", "location"]
  const Answers: seq<string> := [
    "You can apply for admission through the official website.",
    "We offer various courses. Check our academic department page.",
    "Visit our fee section for detailed information.",
    "The campus offers modern facilities like hostels and sports complexes.",
    "We are located in Puducherry, India."
  ]
  const Fallback := "I'm sorry, I didn't quite understand your question."

  /**
   * college_queries: lower-cases the question and answers for the first
   * keyword it contains, or apologises when it contains none.
   */
  function CollegeQueries(userInput: string): (reply: string)
    ensures reply in Answers || reply == Fallback
  {
    var lowered := Lower(userInput);
    if Contains(lowered, "admission") then "You can apply for admission through the official website."
    else if Contains(lowered, "course") then "We offer various courses. Check our academic department page."
    else if Contains(lowered, "fees") then "Visit our fee section for detailed information."
    else if Contains(lowered, "campus") then "The campus offers modern facilities like hostels and sports complexes."
    else if Contains(lowered, "location") then "We are located in Puducherry, India."
    else Fallback
  }

  /** The earliest keyword the lower-cased question contains decides the answer. */
  lemma QueryPriority(userInput: string, i: int)
    requires 0 <= i < |Keywords| && Contains(Lower(userInput), Keywords[i])
    requires forall j :: 0 <= j < i ==> !Contains(Lower(userInput), Keywords[j])
    ensures CollegeQueries(userInput) == Answers[i]
  {
    var lowered := Lower(userInput);
    if i > 0 { assert !Contains(lowered, Keywords[0]); }
    if i > 1 { assert !Contains(lowered, Keywords[1]); }
    if i > 2 { assert !Contains(lowered, Keywords[2]); }
    if i > 3 { assert !Contains(lowered, Keywords[3]); }
  }

  /** A question with none of the keywords gets the apology. */
  lemma QueryFallback(userInput: string)
    requires forall i :: 0 <= i < |Keywords| ==> !Contains(Lower(userInput), Keywords[i])
    ensures CollegeQueries(userInput) == Fallback
  {
    var lowered := Lower(userInput);
    assert !Contains(lowered, Keywords[0]) && !Contains(lowered, Keywords[1]);
    assert !Contains(lowered, Keywords[2]) && !Contains(lowered, Keywords[3]);
    assert !Contains(lowered, Keywords[4]);
  }

  /** Lower-casing twice is lower-casing once. */
  lemma LowerIdempotent(s: string)
    ensures Lower(Lower(s)) == Lower(s)
  {
    assert forall i :: 0 <= i < |s| ==> LowerChar(LowerChar(s[i])) == LowerChar(s[i]);
  }

  /** The answer ignores letter case: a question and its lower-cased form get the same answer. */
  lemma QueryIgnoresCase(userInput: string)
    ensures CollegeQueries(Lower(userInput)) == CollegeQueries(userInput)
  {
    LowerIdempotent(userInput);
  }

  /** Matching is by substring, so "Courses?" asks about courses. */
  lemma CoursesQuestion()
    ensures CollegeQueries("Courses?") == Answers[1]
  {
    var lowered := Lower("Courses?");
    assert lowered == "courses?";
    assert OccursAt(lowered, Keywords[1], 0);
    QueryPriority("Courses?", 1);
  }
}
