/** The fixed onboarding question list. server.js and utils.js each hold a
    character-for-character identical copy; it is defined once here. */
module Questions {

  const Count: nat := 18

  const All: seq<string> := [
    "What is your company name?",
    "What industry are you in?",
    "What is your core offer?",
    "What is your ticket size?",
    "What is your current monthly revenue?",
    "What is your goal monthly revenue in 12 months?",
    "What technologies do your clients use (e.g., Shopify)?",
    "Any keywords you'd be looking for on your ideal client's website?",
    "What market/industry/niche do you work with?",
    "Are there any adjacent markets?",
    "What geography is your ideal clients based?",
    "What is the ideal company headcount of your ideal clients?",
    "What is the title of the avatar you target (e.g., CEO, CFO, CMO)?",
    "What are some problems your ideal clients have that you can solve?",
    "Link to your most recent case study and results achieved.",
    "Link to a landing page with a headline, VSL, and booking button.",
    "Link to your booking page (e.g., Calendly).",
    "Link to your thank you page and video."
  ]

  lemma CountMatches()
    ensures |All| == Count
  {
  }
}
